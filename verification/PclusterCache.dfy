/**
 The cache of decoded pclusters: an LRU list, most recent first, bounded both in
 entries and in bytes.
 */
module PclusterCache {
  import opened Basics

  /** `(nid, blkaddr, start, end)`. */
  datatype Key = Key(nid: nat, blkaddr: nat, start: nat, end: nat)

  datatype Entry = Entry(key: Key, value: seq<byte>)

  type Lru = seq<Entry>

  function BytesOf(l: Lru): nat {
    if l == [] then 0 else |l[0].value| + BytesOf(l[1..])
  }

  /** Position of `key`, or the length of the list. */
  function Find(l: Lru, key: Key): (i: nat)
    ensures i <= |l| && (i < |l| ==> l[i].key == key)
    ensures forall j :: 0 <= j < i ==> l[j].key != key
  {
    if l == [] || l[0].key == key then 0 else 1 + Find(l[1..], key)
  }

  predicate Has(l: Lru, key: Key) {
    Find(l, key) < |l|
  }

  ghost predicate DistinctKeys(l: Lru) {
    forall i, j :: 0 <= i < j < |l| ==> l[i].key != l[j].key
  }

  function Without(l: Lru, i: nat): Lru
    requires i < |l|
  {
    l[..i] + l[i + 1..]
  }

  /** `LruCache::push`: the list afterwards, and what was displaced. */
  function Push(l: Lru, capacity: nat, e: Entry): (Lru, Option<Entry>) {
    var i := Find(l, e.key);
    if i < |l| then ([e] + Without(l, i), Some(l[i]))
    else if |l| >= capacity && l != [] then ([e] + l[..|l| - 1], Some(l[|l| - 1]))
    else ([e] + l, None)
  }

  /** The longest run of most recent entries that fits in `limit` bytes. */
  function Trim(l: Lru, limit: nat): (t: Lru)
    ensures t <= l
    decreases |l|
  {
    if BytesOf(l) <= limit || l == [] then l else Trim(l[..|l| - 1], limit)
  }

  lemma {:induction false} BytesOfConcat(a: Lru, b: Lru)
    ensures BytesOf(a + b) == BytesOf(a) + BytesOf(b)
    decreases |a|
  {
    if a == [] {
      assert a + b == b;
    } else {
      assert (a + b)[1..] == a[1..] + b;
      BytesOfConcat(a[1..], b);
    }
  }

  lemma BytesOfWithout(l: Lru, i: nat)
    requires i < |l|
    ensures BytesOf(Without(l, i)) == BytesOf(l) - |l[i].value|
  {
    assert l == l[..i] + ([l[i]] + l[i + 1..]);
    BytesOfConcat(l[..i], [l[i]] + l[i + 1..]);
    BytesOfConcat([l[i]], l[i + 1..]);
    BytesOfConcat(l[..i], l[i + 1..]);
    assert BytesOf([l[i]]) == |l[i].value| + BytesOf([l[i]][1..]);
  }

  lemma BytesOfPush(l: Lru, capacity: nat, e: Entry)
    ensures var (p, displaced) := Push(l, capacity, e);
            BytesOf(p) == BytesOf(l) + |e.value|
                          - (match displaced case Some(d) => |d.value| case None => 0)
  {
    var i := Find(l, e.key);
    if i < |l| {
      BytesOfWithout(l, i);
      assert ([e] + Without(l, i))[1..] == Without(l, i);
    } else if |l| >= capacity && l != [] {
      BytesOfWithout(l, |l| - 1);
      assert Without(l, |l| - 1) == l[..|l| - 1];
      assert ([e] + l[..|l| - 1])[1..] == l[..|l| - 1];
    } else {
      assert ([e] + l)[1..] == l;
    }
  }

  lemma PushKeeps(l: Lru, capacity: nat, e: Entry)
    requires DistinctKeys(l) && |l| <= capacity && capacity > 0
    ensures var p := Push(l, capacity, e).0;
            DistinctKeys(p) && 0 < |p| <= capacity && p[0] == e
  {
    var i := Find(l, e.key);
  }

  /** A newest entry that fits on its own is never the one trimmed away. */
  lemma {:induction false} TrimKeepsNewest(l: Lru, limit: nat)
    requires l != [] && |l[0].value| <= limit
    ensures Trim(l, limit) != [] && Trim(l, limit)[0] == l[0]
    decreases |l|
  {
    assert |l| == 1 ==> BytesOf(l) == |l[0].value| + BytesOf(l[1..]) && l[1..] == [];
    assert |l| == 1 ==> BytesOf(l[1..]) == 0;
    if BytesOf(l) > limit {
      TrimKeepsNewest(l[..|l| - 1], limit);
    }
  }

  lemma {:induction false} TrimFits(l: Lru, limit: nat)
    ensures BytesOf(Trim(l, limit)) <= limit
    ensures forall t: Lru :: t <= l && BytesOf(t) <= limit ==> |t| <= |Trim(l, limit)|
    decreases |l|
  {
    if BytesOf(l) > limit {
      var front := l[..|l| - 1];
      TrimFits(front, limit);
      forall t: Lru | t <= l && BytesOf(t) <= limit
        ensures |t| <= |Trim(l, limit)|
      {
        assert |t| == |l| ==> t == l;
        assert |t| < |l| ==> t <= front;
      }
    }
  }

  lemma PrefixDistinct(l: Lru, t: Lru)
    requires DistinctKeys(l) && t <= l
    ensures DistinctKeys(t)
  {
  }

  lemma NonEmptyIfHeavy(l: Lru, limit: nat)
    requires BytesOf(l) > limit
    ensures l != []
  {
  }

  // ----- Cached runs

  /** One use of the cache: what is asked for, and what it would be without a cache. */
  datatype Request = Request(key: Key, uncached: Result<seq<byte>>) {
    predicate Remembered(limit: nat) {
      uncached.Ok? && |uncached.value| <= limit
    }
  }

  /** Look up, and on a miss do the work and remember it. */
  function Serve(l: Lru, capacity: nat, limit: nat, q: Request): (Lru, Result<seq<byte>>) {
    var i := Find(l, q.key);
    if capacity == 0 then (l, q.uncached)
    else if i < |l| then ([l[i]] + Without(l, i), Ok(l[i].value))
    else if q.Remembered(limit) then
      (Trim(Push(l, capacity, Entry(q.key, q.uncached.value)).0, limit), q.uncached)
    else (l, q.uncached)
  }

  function ServeAll(l: Lru, capacity: nat, limit: nat, qs: seq<Request>): seq<Result<seq<byte>>>
    decreases |qs|
  {
    if qs == [] then []
    else
      var (after, r) := Serve(l, capacity, limit, qs[0]);
      [r] + ServeAll(after, capacity, limit, qs[1..])
  }

  function Uncached(qs: seq<Request>): seq<Result<seq<byte>>> {
    seq(|qs|, i requires 0 <= i < |qs| => qs[i].uncached)
  }

  /** A key names one result, as far as results are remembered at all. */
  ghost predicate Faithful(universe: iset<Request>, limit: nat) {
    forall p, q :: p in universe && q in universe && p.key == q.key && p.Remembered(limit) ==>
      q.uncached == p.uncached
  }

  /** Everything in the list is what some request of the universe would get. */
  ghost predicate Remembers(l: Lru, universe: iset<Request>, limit: nat) {
    forall e :: e in l ==> |e.value| <= limit && Request(e.key, Ok(e.value)) in universe
  }

  lemma PushBringsOnly(l: Lru, capacity: nat, e: Entry)
    ensures forall x :: x in Push(l, capacity, e).0 ==> x == e || x in l
  {
  }

  lemma WithoutBringsNothing(l: Lru, i: nat)
    requires i < |l|
    ensures forall x :: x in [l[i]] + Without(l, i) ==> x in l
  {
  }

  lemma ServeRemembers(l: Lru, universe: iset<Request>, capacity: nat, limit: nat, q: Request)
    requires Faithful(universe, limit) && Remembers(l, universe, limit) && q in universe
    ensures Serve(l, capacity, limit, q).1 == q.uncached
    ensures Remembers(Serve(l, capacity, limit, q).0, universe, limit)
  {
    hide Push, Trim, Without;
    var i := Find(l, q.key);
    if i < |l| {
      assert l[i] in l;
      assert Request(l[i].key, Ok(l[i].value)) in universe;
      WithoutBringsNothing(l, i);
    } else if q.uncached.Ok? {
      var e := Entry(q.key, q.uncached.value);
      PushBringsOnly(l, capacity, e);
      assert Request(e.key, Ok(e.value)) == q;
      forall x | x in Trim(Push(l, capacity, e).0, limit)
        ensures x in Push(l, capacity, e).0
      {
      }
    }
  }

  lemma {:induction false} FaithfulRuns(l: Lru, universe: iset<Request>, capacity: nat, limit: nat, qs: seq<Request>)
    requires Faithful(universe, limit) && Remembers(l, universe, limit)
    requires forall q :: q in qs ==> q in universe
    ensures ServeAll(l, capacity, limit, qs) == Uncached(qs)
    decreases |qs|
  {
    hide Serve, Faithful, Remembers;
    if qs != [] {
      ServeRemembers(l, universe, capacity, limit, qs[0]);
      FaithfulRuns(Serve(l, capacity, limit, qs[0]).0, universe, capacity, limit, qs[1..]);
      assert Uncached(qs) == [qs[0].uncached] + Uncached(qs[1..]);
    }
  }

  /** The two requests that tell an unfaithful key from a faithful one. */
  lemma SecondIsServedFirst(capacity: nat, limit: nat, p: Request, q: Request)
    requires capacity > 0 && p.key == q.key && p.Remembered(limit)
    ensures ServeAll([], capacity, limit, [p, q]) == [p.uncached, p.uncached]
  {
    hide BytesOf, Trim;
    var e := Entry(p.key, p.uncached.value);
    var l := Push([], capacity, e).0;
    assert l == [e];
    TrimKeepsNewest(l, limit);
    var after := Serve([], capacity, limit, p).0;
    assert after == Trim(l, limit) && after == [e];
    assert Find(after, q.key) == 0;
    assert Serve(after, capacity, limit, q).1 == p.uncached;
    assert [p, q][1..] == [q] && [q][1..] == [];
    assert ServeAll([], capacity, limit, [p, q]) == [p.uncached] + ServeAll(after, capacity, limit, [q]);
    assert ServeAll(after, capacity, limit, [q])
        == [p.uncached] + ServeAll(Serve(after, capacity, limit, q).0, capacity, limit, []);
  }

  /**
   Cached runs equal uncached runs, whatever is asked for and in whatever order, exactly
   when a key names one result.
   */
  lemma CachedEqualsUncachedIff(universe: iset<Request>, capacity: nat, limit: nat)
    requires capacity > 0
    ensures Faithful(universe, limit)
            <==> forall qs: seq<Request> :: (forall q :: q in qs ==> q in universe)
                   ==> ServeAll([], capacity, limit, qs) == Uncached(qs)
  {
    hide ServeAll;
    if Faithful(universe, limit) {
      forall qs: seq<Request> | forall q :: q in qs ==> q in universe
        ensures ServeAll([], capacity, limit, qs) == Uncached(qs)
      {
        FaithfulRuns([], universe, capacity, limit, qs);
      }
    } else {
      var p, q :| p in universe && q in universe && p.key == q.key && p.Remembered(limit)
                  && q.uncached != p.uncached;
      SecondIsServedFirst(capacity, limit, p, q);
      assert forall r :: r in [p, q] ==> r in universe;
      assert Uncached([p, q])[1] == q.uncached;
    }
  }

  // ----- The cache as the read path uses it

  class Cache {
    var lru: Lru
    var capacity: nat
    var bytes: nat
    const byteLimit: nat
    var hits: nat
    var misses: nat

    /** The accounting invariant. A capacity of 0 is a disabled cache. */
    ghost predicate Valid()
      reads this
    {
      && DistinctKeys(lru)
      && |lru| <= capacity
      && bytes == BytesOf(lru)
      && bytes <= byteLimit
    }

    /** `PclusterCache::new`, with the default byte limit passed in. */
    constructor (capacity: nat, byteLimit: nat)
      ensures Valid() && lru == [] && this.capacity == capacity && this.byteLimit == byteLimit
      ensures bytes == 0 && hits == 0 && misses == 0
    {
      this.lru := [];
      this.capacity := capacity;
      this.bytes := 0;
      this.byteLimit := byteLimit;
      this.hits := 0;
      this.misses := 0;
    }

    /** `cache_lookup`: a hit becomes the most recent entry. */
    method Lookup(key: Key) returns (r: Option<seq<byte>>)
      requires Valid()
      modifies this`lru, this`hits, this`misses
      ensures Valid()
      ensures capacity == 0 ==> r == None && hits == old(hits) && misses == old(misses)
      ensures capacity > 0 ==> hits + misses == old(hits) + old(misses) + 1
      ensures capacity > 0 ==> (hits > old(hits) <==> r.Some?) && hits >= old(hits)
      ensures r.Some? <==> Has(old(lru), key)
      ensures r.None? ==> lru == old(lru)
      ensures r.Some? ==> var i := Find(old(lru), key);
                r.value == old(lru)[i].value && lru == [old(lru)[i]] + Without(old(lru), i)
    {
      hide BytesOf, Without, DistinctKeys;
      if capacity == 0 {
        return None;
      }
      var i := Find(lru, key);
      if i < |lru| {
        var e := lru[i];
        BytesOfPush(lru, capacity, e);
        PushKeeps(lru, capacity, e);
        lru := [e] + Without(lru, i);
        hits := hits + 1;
        return Some(e.value);
      }
      misses := misses + 1;
      return None;
    }

    /** `PclusterCache::insert`. */
    method Insert(key: Key, value: seq<byte>)
      requires Valid()
      modifies this`lru, this`bytes
      ensures Valid()
      ensures lru == if old(capacity) == 0 || |value| > byteLimit then old(lru)
                     else Trim(Push(old(lru), capacity, Entry(key, value)).0, byteLimit)
      ensures capacity > 0 && |value| <= byteLimit ==> lru != [] && lru[0] == Entry(key, value)
    {
      hide BytesOf, Push, DistinctKeys;
      if capacity == 0 {
        return;
      }
      if |value| > byteLimit {
        return;
      }
      bytes := bytes + |value|;
      var (pushed, displaced) := Push(lru, capacity, Entry(key, value));
      BytesOfPush(lru, capacity, Entry(key, value));
      PushKeeps(lru, capacity, Entry(key, value));
      TrimKeepsNewest(pushed, byteLimit);
      lru := pushed;
      if displaced.Some? {
        bytes := bytes - |displaced.value.value|;
      }
      while bytes > byteLimit
        invariant Trim(lru, byteLimit) == Trim(pushed, byteLimit)
        invariant lru <= pushed && bytes == BytesOf(lru)
        decreases |lru|
      {
        NonEmptyIfHeavy(lru, byteLimit);
        var last := |lru| - 1;
        BytesOfWithout(lru, last);
        assert Without(lru, last) == lru[..last];
        bytes := bytes - |lru[last].value|;
        lru := lru[..last];
      }
      PrefixDistinct(pushed, lru);
    }
  }
}
