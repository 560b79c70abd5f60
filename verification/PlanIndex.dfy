/**
 The index a plan leaves behind, as the reader sees it: well formed, and with one extent
 per planned pcluster.
 */
module PlanIndex {
  import opened Basics
  import opened Bits
  import opened CompactIndex
  import opened CompactLimits
  import opened CompactPack
  import opened CompactRoundTrip
  import opened ExtentMap
  import opened Planner
  import opened Trailer
  import opened TrailerReadBack
  import opened ZMapReader

  /** Where pcluster `k` lies: behind those before it, which all have as many blocks. */
  function AddressAt(c: Config, first: nat, k: nat): nat {
    first + k * c.targetBlocks
  }

  /** A trailer made from a plan whose pclusters lie one behind the other. */
  ghost predicate Carries(t: TrailerPlan, c: Config, src: seq<byte>, plan: Plan, first: nat) {
    && t.Valid() && c.Valid() && WfPlan(c, src, plan)
    && t.entries == plan.entries && t.algo == c.algo
    && |t.addrs| == |plan.pclusters| && (forall k :: 0 <= k < |t.addrs| ==> t.addrs[k] == AddressAt(c, first, k) <= U32_MAX)
    && 0 < first
  }

  /** The reader's index of such a trailer. */
  ghost predicate IndexOf(idx: Index, t: TrailerPlan) {
    t.Valid() && |idx| == |t.entries| && forall i :: 0 <= i < |idx| ==> idx[i] == Ok(EntryAsRead(t, i))
  }

  /** Entry `i` belongs to pcluster `k`. */
  lemma EntryOf(t: TrailerPlan, c: Config, src: seq<byte>, plan: Plan, first: nat, idx: Index, i: nat) returns (k: nat)
    requires Carries(t, c, src, plan, first) && IndexOf(idx, t) && i < |idx|
    ensures k < |plan.pclusters|
    ensures var p := plan.pclusters[k];
            && p.head <= i < p.head + p.nLclusters <= |idx|
            && (p.ctype == HEAD1 || p.ctype == PLAIN)
            && idx[i] == Ok(if i == p.head then LEntry(p.ctype, p.ctype, 0, AddressAt(c, first, k), None)
                            else LEntry(NONHEAD, NONHEAD, 0, i - p.head, None))
  {
    hide Maximal, Contiguous, Planner.NLclusters, EntriesOf;
    k := OwnerOf(c, src, plan, i);
    HeadWithin(c, src, plan, k);
    assert GoodPcluster(c, src, plan.pclusters[k]);
    assert idx[i] == Ok(EntryAsRead(t, i));
  }

  /** The entries of pcluster `k`. */
  lemma EntriesFrom(t: TrailerPlan, c: Config, src: seq<byte>, plan: Plan, first: nat, idx: Index, k: nat, i: nat)
    requires Carries(t, c, src, plan, first) && IndexOf(idx, t) && k < |plan.pclusters|
    requires plan.pclusters[k].head <= i < plan.pclusters[k].head + plan.pclusters[k].nLclusters
    ensures var p := plan.pclusters[k];
            && p.head + p.nLclusters <= |idx| && p.nLclusters <= 0x1_0000
            && (p.ctype == HEAD1 || p.ctype == PLAIN)
            && idx[i] == Ok(if i == p.head then LEntry(p.ctype, p.ctype, 0, AddressAt(c, first, k), None)
                            else LEntry(NONHEAD, NONHEAD, 0, i - p.head, None))
  {
    hide Maximal, Contiguous, Planner.NLclusters;
    var p := plan.pclusters[k];
    HeadWithin(c, src, plan, k);
    assert GoodPcluster(c, src, p);
    assert EntriesOf(plan.entries, p.head, p.nLclusters, p.ctype, k);
    assert idx[i] == Ok(EntryAsRead(t, i));
  }

  lemma ZeroStartsFirst(t: TrailerPlan, c: Config, src: seq<byte>, plan: Plan, first: nat, idx: Index)
    requires Carries(t, c, src, plan, first) && IndexOf(idx, t) && idx != []
    ensures IsHeadAt(idx, 0) && idx[0].value.clusterofs == 0
  {
    hide Carries, IndexOf;
    var k := EntryOf(t, c, src, plan, first, idx, 0);
  }

  lemma NonheadIsExact(t: TrailerPlan, c: Config, src: seq<byte>, plan: Plan, first: nat, idx: Index, i: nat)
    requires Carries(t, c, src, plan, first) && IndexOf(idx, t) && i < |idx|
    requires idx[i].Ok? && idx[i].value.ctype == NONHEAD
    ensures ExactDistance(idx, i, Delta0(idx[i].value))
  {
    hide Carries, IndexOf;
    var k := EntryOf(t, c, src, plan, first, idx, i);
    var p := plan.pclusters[k];
    EntriesFrom(t, c, src, plan, first, idx, k, p.head);
    forall j | p.head < j <= i
      ensures !IsHeadAt(idx, j)
    {
      EntriesFrom(t, c, src, plan, first, idx, k, j);
    }
  }

  /** The index of a plan is well formed. */
  lemma PlanIndexIsWellFormed(t: TrailerPlan, c: Config, src: seq<byte>, plan: Plan, first: nat, idx: Index)
    requires Carries(t, c, src, plan, first) && IndexOf(idx, t)
    ensures WfIndex(idx, c.lclusterSize)
  {
    hide Carries, IndexOf, ExactDistance;
    if idx != [] {
      ZeroStartsFirst(t, c, src, plan, first, idx);
    }
    forall i | 0 <= i < |idx|
      ensures idx[i].Ok? && idx[i].value.ctype < 4 && idx[i].value.clusterofs == 0 && idx[i].value.cblkcnt == None
      ensures idx[i].value.ctype == NONHEAD ==> ExactDistance(idx, i, Delta0(idx[i].value))
    {
      var k := EntryOf(t, c, src, plan, first, idx, i);
      if idx[i].value.ctype == NONHEAD {
        NonheadIsExact(t, c, src, plan, first, idx, i);
      }
    }
    CarriesBasics(t, c, src, plan, first);
  }

  lemma CarriesBasics(t: TrailerPlan, c: Config, src: seq<byte>, plan: Plan, first: nat)
    requires Carries(t, c, src, plan, first)
    ensures c.lclusterSize > 0 && t.Valid()
  {
  }

  /** The head behind pcluster `k`'s is the first lcluster it does not cover. */
  lemma NextHeadOf(t: TrailerPlan, c: Config, src: seq<byte>, plan: Plan, first: nat, idx: Index, k: nat)
    requires Carries(t, c, src, plan, first) && IndexOf(idx, t) && k < |plan.pclusters|
    ensures var p := plan.pclusters[k];
            && p.nLclusters >= 1 && p.head + p.nLclusters <= |idx|
            && NextHead(idx, p.head + 1) == p.head + p.nLclusters
  {
    hide Carries, IndexOf, NextHead;
    var p := plan.pclusters[k];
    AtLeastOneOf(t, c, src, plan, first, k);
    var end := p.head + p.nLclusters;
    EntriesFrom(t, c, src, plan, first, idx, k, p.head);
    forall j | p.head < j < end
      ensures !IsHeadAt(idx, j)
    {
      EntriesFrom(t, c, src, plan, first, idx, k, j);
    }
    if end < |idx| {
      var m := EntryOf(t, c, src, plan, first, idx, end);
      var q := plan.pclusters[m];
      if q.head < end {
        EntriesFrom(t, c, src, plan, first, idx, m, end);
        SameOwner(t, c, src, plan, first, k, m, end - 1);
      } else {
        assert IsHeadAt(idx, end);
      }
    }
  }

  lemma AtLeastOneOf(t: TrailerPlan, c: Config, src: seq<byte>, plan: Plan, first: nat, k: nat)
    requires Carries(t, c, src, plan, first) && k < |plan.pclusters|
    ensures plan.pclusters[k].nLclusters >= 1
  {
    assert GoodPcluster(c, src, plan.pclusters[k]);
  }

  /** No lcluster has two pclusters. */
  lemma SameOwner(t: TrailerPlan, c: Config, src: seq<byte>, plan: Plan, first: nat, k: nat, m: nat, i: nat)
    requires Carries(t, c, src, plan, first) && k < |plan.pclusters| && m < |plan.pclusters|
    requires plan.pclusters[k].head <= i < plan.pclusters[k].head + plan.pclusters[k].nLclusters
    requires plan.pclusters[m].head <= i < plan.pclusters[m].head + plan.pclusters[m].nLclusters
    ensures k == m
  {
    hide GoodPcluster, Maximal, Contiguous, Planner.NLclusters;
    var p, q := plan.pclusters[k], plan.pclusters[m];
    assert EntriesOf(plan.entries, p.head, p.nLclusters, p.ctype, k);
    assert EntriesOf(plan.entries, q.head, q.nLclusters, q.ctype, m);
    assert plan.entries[i] == EntryFor(i - p.head, p.ctype, k) == EntryFor(i - q.head, q.ctype, m);
  }

  // ----- One extent per pcluster

  function PclusterEnd(c: Config, size: nat, p: PclusterPlan): nat {
    Min((p.head + p.nLclusters) * c.lclusterSize, size)
  }

  /** No compressed pcluster decodes to more than a pcluster may. */
  ghost predicate ShortPclusters(c: Config, size: nat, plan: Plan) {
    forall k :: 0 <= k < |plan.pclusters| && plan.pclusters[k].ctype == HEAD1 ==>
      PclusterEnd(c, size, plan.pclusters[k]) <= plan.pclusters[k].head * c.lclusterSize + MAX_PCLUSTER_SIZE
  }

  lemma SizeOf(t: TrailerPlan, c: Config, src: seq<byte>, plan: Plan, first: nat, idx: Index)
    requires Carries(t, c, src, plan, first) && IndexOf(idx, t)
    ensures c.lclusterSize > 0 && |idx| == DivCeil(|src|, c.lclusterSize)
  {
    hide GoodPcluster, Maximal, Contiguous, EntriesOf, DivCeil;
  }

  /** Where the unbounded scan ends pcluster `k`. */
  lemma TrueEndOf(t: TrailerPlan, c: Config, src: seq<byte>, plan: Plan, first: nat, idx: Index, k: nat)
    requires Carries(t, c, src, plan, first) && IndexOf(idx, t) && k < |plan.pclusters|
    ensures var p := plan.pclusters[k];
            && p.head < |idx| && TrueEnd(idx, c.lclusterSize, |src|, p.head) == PclusterEnd(c, |src|, p)
            && (PclusterEnd(c, |src|, p) == |src| <==> p.head + p.nLclusters == |idx|)
            && p.head * c.lclusterSize < PclusterEnd(c, |src|, p)
  {
    hide Carries, IndexOf, DivCeil, NextHead;
    var p, lcs := plan.pclusters[k], c.lclusterSize;
    SizeOf(t, c, src, plan, first, idx);
    DivCeilBounds(|src|, lcs);
    NextHeadOf(t, c, src, plan, first, idx, k);
    var nh := p.head + p.nLclusters;
    MulMono(p.head, |idx| - 1, lcs);
    MulMono(p.head + 1, nh, lcs);
    MulStep(p.head, lcs);
    if nh < |idx| {
      MulMono(nh, |idx| - 1, lcs);
      var m := EntryOf(t, c, src, plan, first, idx, nh);
      assert idx[nh].value.clusterofs == 0;
    }
  }

  /** Short pclusters leave no head out of reach of the next one. */
  lemma PlanInReach(t: TrailerPlan, c: Config, src: seq<byte>, plan: Plan, first: nat, idx: Index)
    requires Carries(t, c, src, plan, first) && IndexOf(idx, t) && ShortPclusters(c, |src|, plan)
    ensures c.lclusterSize > 0 && AllInReach(idx, c.lclusterSize, |src|)
  {
    hide Carries, IndexOf, NextHead, ShortPclusters;
    CarriesBasics(t, c, src, plan, first);
    forall h | 0 <= h < |idx| && IsHeadAt(idx, h)
      ensures InReach(idx, c.lclusterSize, |src|, h)
    {
      var k := EntryOf(t, c, src, plan, first, idx, h);
      NextHeadOf(t, c, src, plan, first, idx, k);
      if plan.pclusters[k].head + plan.pclusters[k].nLclusters < |idx| {
        ShortEnough(t, c, src, plan, first, idx, k);
      }
    }
  }

  lemma ShortEnough(t: TrailerPlan, c: Config, src: seq<byte>, plan: Plan, first: nat, idx: Index, k: nat)
    requires Carries(t, c, src, plan, first) && IndexOf(idx, t) && ShortPclusters(c, |src|, plan) && k < |plan.pclusters|
    requires plan.pclusters[k].head + plan.pclusters[k].nLclusters < |idx| && c.lclusterSize > 0
    ensures plan.pclusters[k].nLclusters < 1 + Reach(c.lclusterSize)
  {
    hide IndexOf, DivCeil, Maximal, Contiguous, EntriesOf;
    var p, lcs := plan.pclusters[k], c.lclusterSize;
    assert GoodPcluster(c, src, p);
    if p.ctype == HEAD1 && p.nLclusters > MAX_PCLUSTER_SIZE / lcs {
      SizeOf(t, c, src, plan, first, idx);
      DivCeilBounds(|src|, lcs);
      MulMono(p.head + p.nLclusters, |idx| - 1, lcs);
      FarApart(p.head, p.head + p.nLclusters, MAX_PCLUSTER_SIZE, lcs);
    }
  }

  lemma {:induction false} NoMarkersSeen(idx: Index, from: nat, until: nat)
    requires from <= until <= |idx|
    requires forall i :: 0 <= i < |idx| ==> idx[i].Ok? && idx[i].value.cblkcnt == None
    ensures Scan(idx, from, until, None).Ok? && Scan(idx, from, until, None).value.1 == None
    decreases until - from
  {
    if from != until && !IsHeadOrPlain(idx[from].value.ctype) {
      NoMarkersSeen(idx, from + 1, until);
    }
  }

  lemma NoMarkerIn(t: TrailerPlan, c: Config, src: seq<byte>, plan: Plan, first: nat, idx: Index)
    requires Carries(t, c, src, plan, first) && IndexOf(idx, t)
    ensures forall i :: 0 <= i < |idx| ==> idx[i].Ok? && idx[i].value.cblkcnt == None
  {
    hide Carries;
    forall i | 0 <= i < |idx|
      ensures idx[i].Ok? && idx[i].value.cblkcnt == None
    {
      assert idx[i] == Ok(EntryAsRead(t, i));
    }
  }

  /** The extent of pcluster `k`. */
  function ExtentOfPcluster(c: Config, size: nat, plan: Plan, first: nat, k: nat): Extent
    requires k < |plan.pclusters|
  {
    var p := plan.pclusters[k];
    Extent(AddressAt(c, first, k), 1, p.head * c.lclusterSize, PclusterEnd(c, size, p), p.ctype, p.head,
           PclusterEnd(c, size, p) >= size, 0, false)
  }

  lemma NoPartialRef(ctype: nat)
    requires ctype < 4
    ensures !HasBit(ctype, LI_PARTIAL_REF)
  {
  }

  /** Every head's extent is its pcluster's. */
  lemma HeadExtent(t: TrailerPlan, c: Config, src: seq<byte>, plan: Plan, first: nat, idx: Index, k: nat)
    requires Carries(t, c, src, plan, first) && IndexOf(idx, t) && ShortPclusters(c, |src|, plan) && k < |plan.pclusters|
    ensures plan.pclusters[k].head < |idx| && IsHeadAt(idx, plan.pclusters[k].head) && c.lclusterSize > 0
    ensures ExtentOfHead(idx, c.lclusterSize, |src|, plan.pclusters[k].head)
            == Ok(ExtentOfPcluster(c, |src|, plan, first, k))
  {
    hide Carries, IndexOf, DivCeil, NextHead, TrueEnd, HasBit, PclusterEnd, Reach, WfIndex, ShortPclusters, AllInReach, InReach;
    var p, lcs := plan.pclusters[k], c.lclusterSize;
    var h := p.head;
    SizeOf(t, c, src, plan, first, idx);
    TrueEndOf(t, c, src, plan, first, idx, k);
    NextHeadOf(t, c, src, plan, first, idx, k);
    EntriesFrom(t, c, src, plan, first, idx, k, h);
    PlanIndexIsWellFormed(t, c, src, plan, first, idx);
    WfIsScannable(idx, lcs);
    PlanInReach(t, c, src, plan, first, idx);
    ReachAt(idx, lcs, |src|, h);
    BoundedScanIsEnough(idx, lcs, |src|, h);
    NoMarkerIn(t, c, src, plan, first, idx);
    NoMarkersSeen(idx, h + 1, Min(h + 1 + Reach(lcs), |idx|));
    NoPartialRef(p.ctype);
  }

  lemma ReachAt(idx: Index, lcs: nat, size: nat, h: nat)
    requires lcs > 0 && AllInReach(idx, lcs, size) && IsHeadAt(idx, h)
    ensures InReach(idx, lcs, size, h)
  {
    hide InReach;
  }

  // ----- The compact form

  lemma AddressFits(t: TrailerPlan, c: Config, src: seq<byte>, plan: Plan, first: nat, k: nat)
    requires Carries(t, c, src, plan, first) && k < |plan.pclusters|
    ensures AddressAt(c, first, k) <= U32_MAX
  {
    hide WfPlan;
    assert t.addrs[k] == AddressAt(c, first, k);
  }

  lemma RawAt(t: TrailerPlan, c: Config, src: seq<byte>, plan: Plan, first: nat, i: nat) returns (k: nat)
    requires Carries(t, c, src, plan, first) && i < |t.entries|
    ensures k < |plan.pclusters|
    ensures var p := plan.pclusters[k];
            && p.head <= i < p.head + p.nLclusters <= |t.entries| && (p.ctype == HEAD1 || p.ctype == PLAIN)
            && CompactEntries(t)[i] == if i == p.head then CompactEntry(Raw(p.ctype, 0), AddressAt(c, first, k))
                                       else CompactEntry(Raw(NONHEAD, i - p.head), 0)
  {
    hide Maximal, Contiguous, Planner.NLclusters, EntriesOf;
    k := OwnerOf(c, src, plan, i);
    HeadWithin(c, src, plan, k);
    assert GoodPcluster(c, src, plan.pclusters[k]);
  }

  lemma RawIn(t: TrailerPlan, c: Config, src: seq<byte>, plan: Plan, first: nat, k: nat, i: nat)
    requires Carries(t, c, src, plan, first) && k < |plan.pclusters|
    requires plan.pclusters[k].head <= i < plan.pclusters[k].head + plan.pclusters[k].nLclusters
    ensures var p := plan.pclusters[k];
            && p.head + p.nLclusters <= |t.entries| && (p.ctype == HEAD1 || p.ctype == PLAIN)
            && CompactEntries(t)[i].raw == if i == p.head then Raw(p.ctype, 0) else Raw(NONHEAD, i - p.head)
  {
    hide Maximal, Contiguous, Planner.NLclusters;
    var p := plan.pclusters[k];
    HeadWithin(c, src, plan, k);
    assert GoodPcluster(c, src, p);
    assert EntriesOf(plan.entries, p.head, p.nLclusters, p.ctype, k);
  }

  lemma RawDeltasExact(t: TrailerPlan, c: Config, src: seq<byte>, plan: Plan, first: nat)
    requires Carries(t, c, src, plan, first)
    ensures DeltasExact(Raws(CompactEntries(t)))
  {
    hide Carries, CompactEntries;
    CarriesBasics(t, c, src, plan, first);
    var rs := Raws(CompactEntries(t));
    forall j | 0 <= j < |rs| && rs[j].ctype == NONHEAD
      ensures rs[j].lo >= 1 && AllNonhead(rs, j - rs[j].lo + 1, j)
      ensures rs[j].lo <= j ==> rs[j - rs[j].lo].ctype != NONHEAD
    {
      var k := RawAt(t, c, src, plan, first, j);
      var p := plan.pclusters[k];
      RawIn(t, c, src, plan, first, k, p.head);
      forall i | 0 <= i < |rs| && j - rs[j].lo + 1 <= i <= j
        ensures rs[i].ctype == NONHEAD
      {
        RawIn(t, c, src, plan, first, k, i);
      }
    }
  }

  /** The heads before pcluster `k` are those of the pclusters before it. */
  lemma {:induction false} HeadsBefore(t: TrailerPlan, c: Config, src: seq<byte>, plan: Plan, first: nat, k: nat)
    requires Carries(t, c, src, plan, first) && k <= |plan.pclusters|
    ensures EndOf(plan.pclusters[..k]) <= |t.entries|
    ensures HeadsIn(Raws(CompactEntries(t))[..EndOf(plan.pclusters[..k])]) == k
    decreases k
  {
    hide Carries, CompactEntries, HeadsIn;
    CarriesBasics(t, c, src, plan, first);
    var rs := Raws(CompactEntries(t));
    if k == 0 {
      NoHeadsAtStart(rs);
    } else {
      var p := plan.pclusters[k - 1];
      HeadsBefore(t, c, src, plan, first, k - 1);
      EndsBehind(t, c, src, plan, first, k);
      RawIn(t, c, src, plan, first, k - 1, p.head);
      HeadsInPrefix(rs, p.head + 1);
      forall i | 0 <= i < |rs| && p.head + 1 <= i <= p.head + p.nLclusters - 1
        ensures rs[i].ctype == NONHEAD
      {
        RawIn(t, c, src, plan, first, k - 1, i);
      }
      NonheadRunAddsNothing(rs, p.head + 1, p.head + p.nLclusters);
    }
  }

  lemma EndsBehind(t: TrailerPlan, c: Config, src: seq<byte>, plan: Plan, first: nat, k: nat)
    requires Carries(t, c, src, plan, first) && 0 < k <= |plan.pclusters|
    ensures var p := plan.pclusters[k - 1];
            && p.nLclusters >= 1 && p.head == EndOf(plan.pclusters[..k - 1])
            && EndOf(plan.pclusters[..k]) == p.head + p.nLclusters
  {
    hide Maximal, EntriesOf;
    HeadWithin(c, src, plan, k - 1);
    assert GoodPcluster(c, src, plan.pclusters[k - 1]);
  }

  /** What the compact round trip asks of its entries, a plan delivers, however long its pclusters. */
  lemma PlanEntriesWellFormed(t: TrailerPlan, c: Config, src: seq<byte>, plan: Plan, first: nat)
    requires Carries(t, c, src, plan, first)
    ensures t.Valid() && CompactPlanned(t)
    ensures BlocksEach(CompactEntries(t), first, c.targetBlocks)
    ensures c.targetBlocks == 1 ==> WellFormedEntries(t.Lobits(), CompactEntries(t), first)
  {
    hide Carries, CompactEntries, HeadsIn, DeltasExact, Pow2, TrailerPlan.Lobits, TrailerPlan.AddrOf;
    CarriesBasics(t, c, src, plan, first);
    var es, rs := CompactEntries(t), Raws(CompactEntries(t));
    RawDeltasExact(t, c, src, plan, first);
    FirstIsPositive(t, c, src, plan, first);
    forall i | 0 <= i < |es|
      ensures FieldsFit(t.Lobits(), es[i].raw)
      ensures es[i].raw.ctype == NONHEAD ==> es[i].raw.lo <= i
      ensures es[i].raw.ctype != NONHEAD ==>
                es[i].raw.lo == 0 && es[i].blkaddr == first + HeadsIn(rs[..i]) * c.targetBlocks <= U32_MAX
    {
      EntryIsPlanned(t, c, src, plan, first, i);
    }
  }

  lemma FirstIsPositive(t: TrailerPlan, c: Config, src: seq<byte>, plan: Plan, first: nat)
    requires Carries(t, c, src, plan, first)
    ensures first > 0
  {
  }

  lemma EntryIsPlanned(t: TrailerPlan, c: Config, src: seq<byte>, plan: Plan, first: nat, i: nat)
    requires Carries(t, c, src, plan, first) && i < |t.entries|
    ensures t.Valid()
    ensures var e := CompactEntries(t)[i];
            && FieldsFit(t.Lobits(), e.raw)
            && (e.raw.ctype == NONHEAD ==> e.raw.lo <= i)
            && (e.raw.ctype != NONHEAD ==>
                  e.raw.lo == 0 && e.blkaddr == first + HeadsIn(Raws(CompactEntries(t))[..i]) * c.targetBlocks <= U32_MAX)
  {
    hide CompactEntries, HeadsIn, Pow2, TrailerPlan.Lobits, WfPlan, Contiguous;
    var k := RawAt(t, c, src, plan, first, i);
    AddressFits(t, c, src, plan, first, k);
    HeadsBefore(t, c, src, plan, first, k);
    EndsBehind(t, c, src, plan, first, k + 1);
    ShortDistances(t, c, src, plan, first, k);
  }

  /** A pcluster covers at most as many lclusters as its distances can count. */
  lemma ShortDistances(t: TrailerPlan, c: Config, src: seq<byte>, plan: Plan, first: nat, k: nat)
    requires Carries(t, c, src, plan, first) && k < |plan.pclusters|
    ensures plan.pclusters[k].nLclusters <= 0x1_0000
  {
    hide Maximal, Contiguous, GoodPcluster, Planner.NLclusters;
    var p := plan.pclusters[k];
    assert EntriesOf(plan.entries, p.head, p.nLclusters, p.ctype, k);
  }

  /** No pcluster is so long that a distance would be taken for a block count. */
  ghost predicate DistancesFit(plan: Plan) {
    forall k :: 0 <= k < |plan.pclusters| ==> plan.pclusters[k].nLclusters <= CBLKCNT
  }

  /** The usual case: 4 KiB lclusters and one-block pclusters of at most 2048 of them. */
  lemma UsualPlanSurvives(t: TrailerPlan, c: Config, src: seq<byte>, plan: Plan, first: nat, bodyEnd: nat)
    requires Carries(t, c, src, plan, first) && t.format == Compacted2B && c.targetBlocks == 1
    requires LobitsFit(GeomOf(t, bodyEnd), t.Lobits()) && DistancesFit(plan)
    ensures t.Valid() && IndexSurvives(t, bodyEnd)
  {
    hide Carries, CompactEntries, Survives, GeomOf, LobitsFit, ExactEntries, OneBlockEach;
    CarriesBasics(t, c, src, plan, first);
    var es := CompactEntries(t);
    forall i | 0 <= i < |es| && es[i].raw.ctype == NONHEAD
      ensures es[i].raw.lo < CBLKCNT
    {
      var k := RawAt(t, c, src, plan, first, i);
    }
    PlanEntriesWellFormed(t, c, src, plan, first);
    FirstIsPositive(t, c, src, plan, first);
    UsualIndexSurvives(GeomOf(t, bodyEnd), IndexRegions(t, bodyEnd), t.Lobits(), es, first);
  }

  /** Pclusters of several blocks: an index survives if its slots do and no pack has a second head. */
  lemma SeveralBlocksSurviveIff(t: TrailerPlan, c: Config, src: seq<byte>, plan: Plan, first: nat, bodyEnd: nat)
    requires Carries(t, c, src, plan, first) && t.format == Compacted2B && c.targetBlocks >= 2
    ensures t.Valid()
    ensures IndexSurvives(t, bodyEnd)
            <==> forall i :: 0 <= i < |t.entries| ==> OneHeadSurvives(IndexRegions(t, bodyEnd), t.Lobits(), CompactEntries(t), i)
  {
    hide Carries, CompactEntries, Survives, OneHeadSurvives, GeomOf, CompactPlanned, BlocksEach;
    CarriesBasics(t, c, src, plan, first);
    PlanEntriesWellFormed(t, c, src, plan, first);
    FirstIsPositive(t, c, src, plan, first);
    forall i | 0 <= i < |t.entries|
      ensures Survives(IndexRegions(t, bodyEnd), t.Lobits(), CompactEntries(t), i)
              <==> OneHeadSurvives(IndexRegions(t, bodyEnd), t.Lobits(), CompactEntries(t), i)
    {
      PackOfSeveralBlocks(IndexRegions(t, bodyEnd), t.Lobits(), CompactEntries(t), first, c.targetBlocks, i);
    }
  }
}
