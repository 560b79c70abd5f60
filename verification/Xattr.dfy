/**
 Inline extended attributes and the dictionary of their name prefixes, written and read.
 */
module Xattrs {
  import opened Basics
  import opened Bits
  import opened CompactRoundTrip

  const XATTR_HEADER_SIZE: nat := 12
  const XATTR_ENTRY_HEADER_SIZE: nat := 4

  datatype Xattr = Xattr(nameIndex: byte, name: seq<byte>, value: seq<byte>)

  /** Zeros up to the next 4-byte boundary behind `n` bytes. */
  function PadTo4(n: nat): (p: nat)
    ensures p < 4 && (n + p) % 4 == 0 && n + p == AlignUp(n, XATTR_ENTRY_ALIGN)
  {
    var q, r := n / 4, n % 4;
    assert n == 4 * q + r && (r == 0 || n + (4 - r) == 4 * (q + 1));
    (4 - n % 4) % 4
  }

  lemma SumAligned(a: nat, b: nat)
    requires a % 4 == 0 && b % 4 == 0
    ensures (a + b) % 4 == 0
  {
  }

  lemma SamePadTo4(a: nat, b: nat)
    requires a % 4 == 0
    ensures PadTo4(a + b) == PadTo4(b)
  {
    assert (a + b) % 4 == b % 4;
  }

  // ----- The writer

  function AttributeBytes(x: Xattr): (s: seq<byte>)
    ensures |s| == 4 + |x.name| + |x.value| + PadTo4(4 + |x.name| + |x.value|)
  {
    [|x.name| % 256, x.nameIndex] + ToLE(|x.value|, 2) + x.name + x.value + Zeros(PadTo4(4 + |x.name| + |x.value|))
  }

  predicate Encodable(x: Xattr) {
    |x.name| <= 255 && |x.value| <= U16_MAX
  }

  ghost predicate AllEncodable(xs: seq<Xattr>) {
    forall i :: 0 <= i < |xs| ==> Encodable(xs[i])
  }

  function Entries(xs: seq<Xattr>): seq<byte>
    decreases |xs|
  {
    if xs == [] then [] else AttributeBytes(xs[0]) + Entries(xs[1..])
  }

  lemma EntryAligned(x: Xattr)
    ensures |AttributeBytes(x)| % 4 == 0
  {
    hide PadTo4;
    var p := PadTo4(4 + |x.name| + |x.value|);
  }

  lemma {:induction false} EntriesSnoc(xs: seq<Xattr>, x: Xattr)
    ensures Entries(xs + [x]) == Entries(xs) + AttributeBytes(x)
    decreases |xs|
  {
    hide AttributeBytes;
    if xs == [] {
      assert ([] + [x])[1..] == [];
      assert xs + [x] == [x];
    } else {
      assert (xs + [x])[1..] == xs[1..] + [x];
      EntriesSnoc(xs[1..], x);
    }
  }

  /** One attribute behind what is already written, and the zeros up to the next boundary. */
  method AppendEntry(buf: seq<byte>, x: Xattr) returns (longer: seq<byte>)
    requires Encodable(x) && |buf| % 4 == 0
    ensures longer == buf + AttributeBytes(x)
  {
    hide ToLE, PadTo4, Zeros;
    longer := buf + [|x.name|, x.nameIndex] + ToLE(|x.value|, 2) + x.name + x.value;
    SamePadTo4(|buf|, 4 + |x.name| + |x.value|);
    longer := longer + Zeros(PadTo4(|longer|));
  }

  lemma NoneEncodable(none: seq<Xattr>)
    requires none == []
    ensures AllEncodable(none) && Entries(none) == []
  {
  }

  /** One attribute more: it decides, and its bytes come last. */
  lemma EncodableUpTo(xs: seq<Xattr>, i: nat)
    requires i < |xs| && AllEncodable(xs[..i])
    ensures AllEncodable(xs[..i + 1]) <==> Encodable(xs[i])
    ensures AllEncodable(xs) ==> Encodable(xs[i])
    ensures Entries(xs[..i + 1]) == Entries(xs[..i]) + AttributeBytes(xs[i])
  {
    hide AttributeBytes, Encodable, Entries;
    assert xs[..i + 1] == xs[..i] + [xs[i]];
    EntriesSnoc(xs[..i], xs[i]);
    if Encodable(xs[i]) {
      forall k | 0 <= k <= i
        ensures Encodable(xs[k])
      {
        assert k < i ==> xs[..i][k] == xs[k];
      }
    } else {
      assert xs[..i + 1][i] == xs[i];
    }
  }

  /** `encode_inline_xattrs`: the bytes, and the count the inode records. */
  method EncodeInlineXattrs(xs: seq<Xattr>) returns (r: Result<(seq<byte>, nat)>)
    ensures r.Err? <==> !AllEncodable(xs) || (xs != [] && |Entries(xs)| / 4 + 1 > U16_MAX)
    ensures r.Ok? ==>
              && r.value.0 == (if xs == [] then [] else Zeros(XATTR_HEADER_SIZE) + Entries(xs))
              && |r.value.0| == (if r.value.1 == 0 then 0 else 12 + (r.value.1 - 1) * 4)
              && r.value.1 <= U16_MAX
  {
    hide AttributeBytes, Encodable, Zeros, AllEncodable, Entries;
    if xs == [] {
      NoneEncodable(xs);
      return Ok(([], 0));
    }
    var buf := Zeros(XATTR_HEADER_SIZE);
    NoneEncodable(xs[..0]);
    assert buf == buf + [];
    for i := 0 to |xs|
      invariant AllEncodable(xs[..i])
      invariant buf == Zeros(XATTR_HEADER_SIZE) + Entries(xs[..i]) && |buf| % 4 == 0
    {
      EncodableUpTo(xs, i);
      if !Encodable(xs[i]) {
        return Err;
      }
      EntryAligned(xs[i]);
      SumAligned(|buf|, |AttributeBytes(xs[i])|);
      buf := AppendEntry(buf, xs[i]);
    }
    assert xs[..|xs|] == xs;
    var icount := (|buf| - XATTR_HEADER_SIZE) / 4 + 1;
    if icount > U16_MAX {
      return Err;
    }
    return Ok((buf, icount));
  }

  // ----- The reader

  /** The entry loop of `parse_inline_xattrs`. */
  function ParseEntries(buf: seq<byte>, cur: nat): Result<seq<Xattr>>
    decreases |buf| - cur
  {
    if cur >= |buf| || |buf| - cur < XATTR_ENTRY_HEADER_SIZE then Ok([])
    else
      var nameLen: nat, nameIndex, valueSize := buf[cur], buf[cur + 1], LE(buf[cur + 2..cur + 4]);
      if nameLen == 0 && valueSize == 0 && nameIndex == 0 then Ok([])
      else
        var start, end := cur + 4, cur + 4 + nameLen + valueSize;
        if end > |buf| then Err
        else
          AlignedBehind(end);
          var rest :- ParseEntries(buf, AlignUp(end, XATTR_ENTRY_ALIGN));
          Ok([Xattr(nameIndex, buf[start..start + nameLen], buf[start + nameLen..end])] + rest)
  }

  lemma AlignedBehind(n: nat)
    ensures AlignUp(n, XATTR_ENTRY_ALIGN) >= n
  {
    DivCeilBounds(n, 4);
  }

  function SharedFrom(buf: seq<byte>, i: nat, n: nat): seq<nat>
    requires i <= n && XATTR_HEADER_SIZE + n * 4 <= |buf|
    decreases n - i
  {
    if i == n then []
    else [LE(buf[XATTR_HEADER_SIZE + i * 4..XATTR_HEADER_SIZE + i * 4 + 4])] + SharedFrom(buf, i + 1, n)
  }

  /** `parse_inline_xattrs`: shared indices, and the inline entries. */
  function ParseInline(buf: seq<byte>): Result<(seq<nat>, seq<Xattr>)> {
    if buf == [] then Ok(([], []))
    else if |buf| < XATTR_HEADER_SIZE || XATTR_HEADER_SIZE + buf[4] as int * 4 > |buf| then Err
    else
      var entries :- ParseEntries(buf, XATTR_HEADER_SIZE + buf[4] as int * 4);
      Ok((SharedFrom(buf, 0, buf[4]), entries))
  }

  /** `parse_inline_xattrs`, as the loops it is. */
  method ParseInlineXattrs(buf: seq<byte>) returns (r: Result<(seq<nat>, seq<Xattr>)>)
    ensures r == ParseInline(buf)
  {
    hide LE, ParseEntries;
    if buf == [] {
      return Ok(([], []));
    }
    if |buf| < XATTR_HEADER_SIZE {
      return Err;
    }
    var sharedCount: nat := buf[4];
    var sharedEnd := XATTR_HEADER_SIZE + sharedCount * 4;
    if sharedEnd > |buf| {
      return Err;
    }
    var shared: seq<nat> := [];
    for i := 0 to sharedCount
      invariant SharedFrom(buf, 0, sharedCount) == shared + SharedFrom(buf, i, sharedCount)
    {
      var off := XATTR_HEADER_SIZE + i * 4;
      ghost var before := shared;
      shared := shared + [LE(buf[off..off + 4])];
      assert before + SharedFrom(buf, i, sharedCount) == shared + SharedFrom(buf, i + 1, sharedCount);
    }
    assert SharedFrom(buf, 0, sharedCount) == shared;
    var entries :- ParseEntryLoop(buf, sharedEnd);
    return Ok((shared, entries));
  }

  /** The second loop of `parse_inline_xattrs`. */
  method ParseEntryLoop(buf: seq<byte>, from: nat) returns (r: Result<seq<Xattr>>)
    ensures r == ParseEntries(buf, from)
  {
    hide ParseEntries, Prepend, LE, AlignUp;
    var out: seq<Xattr>, cur: nat := [], from;
    PrependNone(ParseEntries(buf, cur));
    while cur < |buf|
      invariant ParseEntries(buf, from) == Prepend(out, ParseEntries(buf, cur))
      decreases |buf| - cur
    {
      ParseStep(buf, cur);
      if |buf| - cur < XATTR_ENTRY_HEADER_SIZE {
        break;
      }
      var nameLen: nat, nameIndex, valueSize := buf[cur], buf[cur + 1], LE(buf[cur + 2..cur + 4]);
      if nameLen == 0 && valueSize == 0 && nameIndex == 0 {
        break;
      }
      var start := cur + XATTR_ENTRY_HEADER_SIZE;
      var end := start + nameLen + valueSize;
      if end > |buf| {
        PrependEnd(out);
        return Err;
      }
      AlignedBehind(end);
      var x := Xattr(nameIndex, buf[start..start + nameLen], buf[start + nameLen..end]);
      PrependTwice(out, [x], ParseEntries(buf, AlignUp(end, XATTR_ENTRY_ALIGN)));
      out := out + [x];
      cur := AlignUp(end, XATTR_ENTRY_ALIGN);
    }
    ParseStep(buf, cur);
    PrependEnd(out);
    return Ok(out);
  }

  /** One turn of that loop. */
  lemma ParseStep(buf: seq<byte>, cur: nat)
    ensures cur >= |buf| || |buf| - cur < XATTR_ENTRY_HEADER_SIZE ==> ParseEntries(buf, cur) == Ok([])
    ensures cur + XATTR_ENTRY_HEADER_SIZE <= |buf| ==>
              var nameLen: nat, nameIndex, valueSize := buf[cur], buf[cur + 1], LE(buf[cur + 2..cur + 4]);
              var start, end := cur + 4, cur + 4 + nameLen + valueSize;
              if nameLen == 0 && valueSize == 0 && nameIndex == 0 then ParseEntries(buf, cur) == Ok([])
              else if end > |buf| then ParseEntries(buf, cur) == Err
              else ParseEntries(buf, cur) == Prepend([Xattr(nameIndex, buf[start..start + nameLen], buf[start + nameLen..end])],
                                                     ParseEntries(buf, AlignUp(end, XATTR_ENTRY_ALIGN)))
  {
    hide LE, AlignUp;
  }

  // ----- Round trip

  /** An attribute whose header is all zeros, which the reader takes for the end of the list. */
  predicate LooksLikePadding(x: Xattr) {
    x.nameIndex == 0 && x.name == [] && x.value == []
  }

  /** The attributes in front of the first such one. */
  function BeforePadding(xs: seq<Xattr>): seq<Xattr> {
    if xs == [] || LooksLikePadding(xs[0]) then [] else [xs[0]] + BeforePadding(xs[1..])
  }

  /** Where the parts of a record lie: two bytes, two more, a name and a value. */
  lemma FourPartsAt(a: seq<byte>, b: seq<byte>, c: seq<byte>, d: seq<byte>, rest: seq<byte>)
    requires |a| == |b| == 2
    ensures var e := a + b + c + d + rest;
            e[..2] == a && e[2..4] == b && e[4..4 + |c|] == c && e[4 + |c|..4 + |c| + |d|] == d
  {
  }

  lemma EncodedIs(x: Xattr) returns (rest: seq<byte>)
    requires Encodable(x)
    ensures |x.name| < 256 && |x.value| < 0x1_0000
    ensures AttributeBytes(x) == [|x.name| as byte, x.nameIndex] + ToLE(|x.value|, 2) + x.name + x.value + rest
  {
    hide ToLE, Zeros, PadTo4;
    rest := Zeros(PadTo4(4 + |x.name| + |x.value|));
  }

  lemma AttributeParts(x: Xattr)
    requires Encodable(x)
    ensures var e, n, v := AttributeBytes(x), |x.name|, |x.value|;
            && |e| >= 4 + n + v && e[0] == n && e[1] == x.nameIndex && LE(e[2..4]) == v
            && e[4..4 + n] == x.name && e[4 + n..4 + n + v] == x.value
  {
    hide *;
    var rest := EncodedIs(x);
    FourPartsAt([|x.name| as byte, x.nameIndex], ToLE(|x.value|, 2), x.name, x.value, rest);
    Pow2Of32();
    LEOfFitting(|x.value|, 2);
  }

  lemma AttributeFields(pre: seq<byte>, x: Xattr, post: seq<byte>)
    requires Encodable(x)
    ensures var buf, cur := pre + AttributeBytes(x) + post, |pre|;
            && cur + 4 + |x.name| + |x.value| <= |buf|
            && buf[cur] == |x.name| && buf[cur + 1] == x.nameIndex && LE(buf[cur + 2..cur + 4]) == |x.value|
            && buf[cur + 4..cur + 4 + |x.name|] == x.name
            && buf[cur + 4 + |x.name|..cur + 4 + |x.name| + |x.value|] == x.value
  {
    hide LE, AttributeBytes;
    var buf, cur, e, n := pre + AttributeBytes(x) + post, |pre|, AttributeBytes(x), |x.name|;
    AttributeParts(x);
    assert buf[cur..cur + |e|] == e;
    assert buf[cur] == buf[cur..cur + |e|][0] && buf[cur + 1] == buf[cur..cur + |e|][1];
    SliceSlice(buf, cur, cur + |e|, 2, 4);
    SliceSlice(buf, cur, cur + |e|, 4, 4 + n);
    SliceSlice(buf, cur, cur + |e|, 4 + n, 4 + n + |x.value|);
  }

  lemma NextEntry(at: nat, x: Xattr)
    requires at % 4 == 0
    ensures AlignUp(at + 4 + |x.name| + |x.value|, XATTR_ENTRY_ALIGN) == at + |AttributeBytes(x)|
    ensures (at + |AttributeBytes(x)|) % 4 == 0
  {
    hide AttributeBytes, AlignUp, PadTo4;
    var len := 4 + |x.name| + |x.value|;
    SamePadTo4(at, len);
    var p := PadTo4(at + len);
  }

  /** What the parser makes of written entries: all of them, up to the first that looks like padding. */
  lemma {:induction false} EntriesParse(pre: seq<byte>, xs: seq<Xattr>)
    requires AllEncodable(xs) && |pre| % 4 == 0
    ensures ParseEntries(pre + Entries(xs), |pre|) == Ok(BeforePadding(xs))
    decreases |xs|
  {
    hide LE, AttributeBytes, AlignUp, ParseEntries, Encodable;
    var buf := pre + Entries(xs);
    ParseStep(buf, |pre|);
    if xs != [] {
      var x, rest := xs[0], Entries(xs[1..]);
      assert buf == pre + AttributeBytes(x) + rest;
      AttributeFields(pre, x, rest);
      if !LooksLikePadding(x) {
        var next := pre + AttributeBytes(x);
        assert buf == next + rest;
        NextEntry(|pre|, x);
        EntriesParse(next, xs[1..]);
      }
    }
  }

  lemma {:induction false} AllBeforePadding(xs: seq<Xattr>)
    ensures BeforePadding(xs) <= xs
    ensures BeforePadding(xs) == xs <==> forall i :: 0 <= i < |xs| ==> !LooksLikePadding(xs[i])
    decreases |xs|
  {
    if xs != [] {
      AllBeforePadding(xs[1..]);
      assert xs == [xs[0]] + xs[1..];
      if LooksLikePadding(xs[0]) {
        assert BeforePadding(xs) != xs;
      } else if exists i :: 0 <= i < |xs| && LooksLikePadding(xs[i]) {
        var i :| 0 <= i < |xs| && LooksLikePadding(xs[i]);
        assert xs[1..][i - 1] == xs[i];
        assert BeforePadding(xs)[1..] == BeforePadding(xs[1..]) && xs[1..] != BeforePadding(xs[1..]);
      } else {
        assert forall i :: 0 <= i < |xs[1..]| ==> !LooksLikePadding(xs[1..][i]);
      }
    }
  }

  lemma StartOfEntries(xs: seq<Xattr>)
    requires xs != []
    ensures var buf := Zeros(XATTR_HEADER_SIZE) + Entries(xs);
            |buf| >= XATTR_HEADER_SIZE && buf[4] == 0 && SharedFrom(buf, 0, 0) == []
  {
    hide Entries;
  }

  /**
   Inline attributes come back as they were written, unless one of them has an empty name,
   an empty value and namespace 0: the list then ends in front of it.
   */
  lemma XattrsReadBackIff(xs: seq<Xattr>)
    requires AllEncodable(xs) && xs != []
    ensures ParseInline(Zeros(XATTR_HEADER_SIZE) + Entries(xs)) == Ok(([], BeforePadding(xs)))
    ensures ParseInline(Zeros(XATTR_HEADER_SIZE) + Entries(xs)) == Ok(([], xs))
            <==> forall i :: 0 <= i < |xs| ==> !LooksLikePadding(xs[i])
  {
    hide ParseEntries, Entries, LooksLikePadding, BeforePadding, AllEncodable;
    StartOfEntries(xs);
    EntriesParse(Zeros(XATTR_HEADER_SIZE), xs);
    AllBeforePadding(xs);
  }

  // ----- The prefix dictionary

  datatype LongPrefix = LongPrefix(baseIndex: byte, infix: seq<byte>)

  function PrefixBytes(p: LongPrefix): (s: seq<byte>)
    ensures |s| == 3 + |p.infix| + PadTo4(3 + |p.infix|)
  {
    ToLE(1 + |p.infix|, 2) + [p.baseIndex] + p.infix + Zeros(PadTo4(3 + |p.infix|))
  }

  function DictBytes(ps: seq<LongPrefix>): seq<byte>
    decreases |ps|
  {
    if ps == [] then [] else PrefixBytes(ps[0]) + DictBytes(ps[1..])
  }

  lemma PrefixAligned(at: nat, p: LongPrefix)
    requires at % 4 == 0
    ensures AlignUp(at + 2 + (1 + |p.infix|), XATTR_ENTRY_ALIGN) == at + |PrefixBytes(p)|
    ensures (at + |PrefixBytes(p)|) % 4 == 0
  {
    hide PrefixBytes, AlignUp, PadTo4;
    SamePadTo4(at, 3 + |p.infix|);
    var pad := PadTo4(at + (3 + |p.infix|));
  }

  ghost predicate DictEncodable(ps: seq<LongPrefix>) {
    |ps| <= 255 && forall i :: 0 <= i < |ps| ==> 1 + |ps[i].infix| <= U16_MAX
  }

  lemma {:induction false} DictSnoc(ps: seq<LongPrefix>, p: LongPrefix)
    ensures DictBytes(ps + [p]) == DictBytes(ps) + PrefixBytes(p)
    decreases |ps|
  {
    hide PrefixBytes;
    if ps == [] {
      assert ([] + [p])[1..] == [];
      assert ps + [p] == [p];
    } else {
      assert (ps + [p])[1..] == ps[1..] + [p];
      DictSnoc(ps[1..], p);
    }
  }

  /** One prefix behind what is already written, and the zeros up to the next boundary. */
  method AppendPrefix(out: seq<byte>, p: LongPrefix) returns (longer: seq<byte>)
    requires |out| % 4 == 0
    ensures longer == out + PrefixBytes(p)
  {
    hide ToLE, PadTo4, Zeros;
    longer := out + ToLE(1 + |p.infix|, 2) + [p.baseIndex] + p.infix;
    SamePadTo4(|out|, 3 + |p.infix|);
    longer := longer + Zeros(PadTo4(|longer|));
  }

  /** The dictionary part of the image builder. */
  method EncodeDictionary(ps: seq<LongPrefix>) returns (r: Result<seq<byte>>)
    ensures r.Ok? <==> DictEncodable(ps)
    ensures r.Ok? ==> r.value == DictBytes(ps)
  {
    hide PrefixBytes;
    if |ps| > 255 {
      return Err;
    }
    var out: seq<byte> := [];
    for i := 0 to |ps|
      invariant out == DictBytes(ps[..i]) && |out| % 4 == 0
      invariant forall k :: 0 <= k < i ==> 1 + |ps[k].infix| <= U16_MAX
    {
      assert ps[..i + 1] == ps[..i] + [ps[i]];
      DictSnoc(ps[..i], ps[i]);
      if 1 + |ps[i].infix| > U16_MAX {
        return Err;
      }
      PrefixAligned(|out|, ps[i]);
      out := AppendPrefix(out, ps[i]);
    }
    assert ps[..|ps|] == ps;
    return Ok(out);
  }

  /** The loop of `read_xattr_prefix_dictionary`: `count` more entries from `cursor` on. */
  function ReadDict(dev: seq<byte>, cursor: nat, count: nat): Result<seq<LongPrefix>>
    decreases count
  {
    if count == 0 then Ok([])
    else
      var head :- ReadAt(dev, cursor, 2);
      var size := LE(head);
      if size == 0 then Err
      else
        var body :- ReadAt(dev, cursor + 2, size);
        var rest :- ReadDict(dev, AlignUp(cursor + 2 + size, XATTR_ENTRY_ALIGN), count - 1);
        Ok([LongPrefix(body[0], body[1..])] + rest)
  }

  lemma PrefixFields(dev: seq<byte>, at: nat, p: LongPrefix)
    requires 1 + |p.infix| <= U16_MAX
    requires ReadAt(dev, at, |PrefixBytes(p)|) == Ok(PrefixBytes(p))
    ensures var head := ReadAt(dev, at, 2); head.Ok? && LE(head.value) == 1 + |p.infix|
    ensures ReadAt(dev, at + 2, 1 + |p.infix|) == Ok([p.baseIndex] + p.infix)
  {
    hide LE, ToLE, PadTo4, Zeros;
    var s, n := PrefixBytes(p), |PrefixBytes(p)|;
    SliceSlice(dev, at, at + n, 0, 2);
    SliceSlice(dev, at, at + n, 2, 3 + |p.infix|);
    assert s[0..2] == ToLE(1 + |p.infix|, 2);
    assert s[2..3 + |p.infix|] == [p.baseIndex] + p.infix;
    Pow2Of32();
    LEOfFitting(1 + |p.infix|, 2);
  }

  /** The dictionary reads back prefix by prefix, wherever it is 4-aligned on the device. */
  lemma {:induction false} DictionaryReadsBack(dev: seq<byte>, at: nat, ps: seq<LongPrefix>)
    requires at % 4 == 0 && (forall i :: 0 <= i < |ps| ==> 1 + |ps[i].infix| <= U16_MAX)
    requires ReadAt(dev, at, |DictBytes(ps)|) == Ok(DictBytes(ps))
    ensures ReadDict(dev, at, |ps|) == Ok(ps)
    decreases |ps|
  {
    hide LE, PrefixBytes, AlignUp;
    if ps != [] {
      var p, rest := ps[0], DictBytes(ps[1..]);
      TwoParts(dev, at, PrefixBytes(p), rest);
      PrefixFields(dev, at, p);
      PrefixAligned(at, p);
      DictionaryReadsBack(dev, at + |PrefixBytes(p)|, ps[1..]);
      assert ([p.baseIndex] + p.infix)[1..] == p.infix;
      assert ps == [p] + ps[1..];
    }
  }

  lemma TwoParts(dev: seq<byte>, at: nat, a: seq<byte>, b: seq<byte>)
    requires ReadAt(dev, at, |a + b|) == Ok(a + b)
    ensures ReadAt(dev, at, |a|) == Ok(a) && ReadAt(dev, at + |a|, |b|) == Ok(b)
  {
    var whole := a + b;
    SliceSlice(dev, at, at + |whole|, 0, |a|);
    SliceSlice(dev, at, at + |whole|, |a|, |whole|);
    assert whole[0..|a|] == a && whole[|a|..|whole|] == b;
  }

  /** `read_xattr_prefix_dictionary`, with the cursor it keeps. */
  method ReadPrefixDictionary(dev: seq<byte>, startDiv4: nat, count: nat) returns (r: Result<seq<LongPrefix>>)
    ensures r == ReadDict(dev, startDiv4 * 4, count)
  {
    hide LE, AlignUp;
    var out: seq<LongPrefix>, cursor: nat := [], startDiv4 * 4;
    ghost var all := ReadDict(dev, cursor, count);
    assert all.Ok? ==> [] + all.value == all.value;
    for i := 0 to count
      invariant |out| == i
      invariant var rest := ReadDict(dev, cursor, count - i);
                all == if rest.Ok? then Ok(out + rest.value) else Err
    {
      var head :- ReadAt(dev, cursor, 2);
      var size := LE(head);
      if size == 0 {
        return Err;
      }
      var body :- ReadAt(dev, cursor + 2, size);
      ghost var before, p := out, LongPrefix(body[0], body[1..]);
      ghost var rest := ReadDict(dev, AlignUp(cursor + 2 + size, XATTR_ENTRY_ALIGN), count - i - 1);
      assert rest.Ok? ==> before + ([p] + rest.value) == (before + [p]) + rest.value;
      out := out + [LongPrefix(body[0], body[1..])];
      cursor := AlignUp(cursor + (2 + size), XATTR_ENTRY_ALIGN);
    }
    assert out + [] == out;
    return Ok(out);
  }
}
