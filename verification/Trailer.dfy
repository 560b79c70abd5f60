/**
 The compressed trailer of an inode, as the writer plans, sizes and emits it: map header,
 index, and perhaps the last pcluster's own bytes. What the reader makes of it.
 */
module Trailer {
  import opened Basics
  import opened Bits
  import opened CompactIndex
  import opened CompactPack
  import opened CompactRoundTrip
  import opened LegacyIndex
  import opened Planner
  import opened ZMapReader

  datatype Format = Legacy | Compacted2B

  /** What `encode_zmap_trailer` is given about one compressed inode. */
  datatype TrailerPlan = TrailerPlan(
    algo: Algo, lclusterbits: nat, blkszbits: nat, format: Format,
    entries: seq<IndexEntry>, addrs: seq<nat>, inline: Option<seq<byte>>)
  {
    /** Every HEAD and PLAIN entry names a pcluster with an address. */
    predicate Valid() {
      && lclusterbits <= 4 && blkszbits <= 16
      && forall i :: 0 <= i < |entries| && entries[i].ctype != NONHEAD ==> entries[i].pclusterIdx < |addrs|
    }
    function Lobits(): nat {
      Max(blkszbits + lclusterbits, 12)
    }
    function InlineBytes(): seq<byte> {
      if inline.Some? then inline.value else []
    }
    /** The address a HEAD or PLAIN entry carries. */
    function AddrOf(i: nat): nat
      requires Valid() && i < |entries|
    {
      if entries[i].ctype == NONHEAD then 0 else addrs[entries[i].pclusterIdx]
    }
  }

  function AlgorithmId(a: Algo): (id: nat)
    ensures id < 3
  {
    match a case Lz4 => 0 case Lzma => 1 case Deflate => 2
  }

  // ----- The bytes

  function Advise(use2b: bool, inline: bool): nat {
    (if use2b then ADVISE_COMPACTED_2B else 0) + (if inline then ADVISE_INLINE_PCLUSTER else 0)
  }

  /** The 8-byte map header; `idata_size` is the high half of its first word. */
  function HeaderBytes(idata: nat, advise: nat, algorithm: nat, lclusterbits: nat): (s: seq<byte>)
    ensures |s| == 8
  {
    ToLE(idata % 0x1_0000 * 0x1_0000, 4) + ToLE(advise, 2) + [algorithm % 16, lclusterbits % 16]
  }

  function LegacyEntries(t: TrailerPlan): (es: seq<LegacyEntry>)
    requires t.Valid()
    ensures |es| == |t.entries|
  {
    seq(|t.entries|, i requires 0 <= i < |t.entries| && t.Valid() =>
      var e := t.entries[i];
      if e.ctype == NONHEAD then LegacyEntry(NONHEAD, 0, e.ofsOrDelta0)
      else LegacyEntry(e.ctype, e.ofsOrDelta0, t.AddrOf(i)))
  }

  function CompactEntries(t: TrailerPlan): (es: seq<CompactEntry>)
    requires t.Valid()
    ensures |es| == |t.entries|
  {
    seq(|t.entries|, i requires 0 <= i < |t.entries| && t.Valid() =>
      CompactEntry(Raw(t.entries[i].ctype, t.entries[i].ofsOrDelta0), t.AddrOf(i)))
  }

  function Ebase(bodyEnd: nat): nat {
    AlignUp(bodyEnd, 8) + 8
  }

  function GeomOf(t: TrailerPlan, bodyEnd: nat): (g: CompactGeom)
    ensures g.TotalIdx() == |t.entries| && (g.use2bMiddle <==> g.middle > 0)
  {
    ComputeCompactGeom(Ebase(bodyEnd), |t.entries|, true)
  }

  /** The zeros between the compact header and its index. */
  function PadBefore(bodyEnd: nat): nat {
    (8 - bodyEnd % 8) % 8
  }

  function TrailerBytes(t: TrailerPlan, bodyEnd: nat): seq<byte>
    requires t.Valid()
  {
    var idata := |t.InlineBytes()|;
    match t.format
    case Legacy =>
      HeaderBytes(idata, Advise(false, t.inline.Some?), AlgorithmId(t.algo), t.lclusterbits) + Zeros(8)
      + LegacyBytes(LegacyEntries(t)) + t.InlineBytes()
    case Compacted2B =>
      var geom := GeomOf(t, bodyEnd);
      HeaderBytes(idata, Advise(geom.use2bMiddle, t.inline.Some?), AlgorithmId(t.algo), t.lclusterbits)
      + Zeros(PadBefore(bodyEnd)) + IndexBytes(geom, t.Lobits(), CompactEntries(t)) + t.InlineBytes()
  }

  /** `encode_zmap_trailer`. */
  method EncodeZmapTrailer(t: TrailerPlan, bodyEnd: nat) returns (out: seq<byte>)
    requires t.Valid()
    ensures out == TrailerBytes(t, bodyEnd)
  {
    hide LegacyBytes, IndexBytes, ToLE, LegacyEntryBytes, HeaderBytes, AlgorithmId;
    var idata := |t.InlineBytes()|;
    if t.format == Legacy {
      out := HeaderBytes(idata, Advise(false, t.inline.Some?), AlgorithmId(t.algo), t.lclusterbits) + Zeros(8);
      ghost var header, es := out, LegacyEntries(t);
      NoEntries(header);
      for i := 0 to |t.entries|
        invariant out == header + LegacyBytes(es[..i])
      {
        var e := t.entries[i];
        var entry := if e.ctype == NONHEAD then LegacyEntry(NONHEAD, 0, e.ofsOrDelta0)
                     else LegacyEntry(e.ctype, e.ofsOrDelta0, t.addrs[e.pclusterIdx]);
        LegacyStep(es, i);
        out := out + LegacyEntryBytes(entry);
      }
      assert es[..|t.entries|] == es;
    } else {
      var geom := GeomOf(t, bodyEnd);
      var es: seq<CompactEntry> := [];
      for i := 0 to |t.entries|
        invariant es == CompactEntries(t)[..i]
      {
        var e := t.entries[i];
        var blkaddr := if e.ctype == NONHEAD then 0 else t.addrs[e.pclusterIdx];
        es := es + [CompactEntry(Raw(e.ctype, e.ofsOrDelta0), blkaddr)];
      }
      assert es == CompactEntries(t);
      var index := EncodeCompactIndex(geom, es, t.Lobits());
      out := HeaderBytes(idata, Advise(geom.use2bMiddle, t.inline.Some?), AlgorithmId(t.algo), t.lclusterbits)
             + Zeros(PadBefore(bodyEnd)) + index[..];
    }
    if t.inline.Some? {
      out := out + t.inline.value;
    } else {
      assert out + [] == out;
    }
  }

  lemma NoEntries(header: seq<byte>)
    ensures forall none: seq<LegacyEntry> :: none == [] ==> header + LegacyBytes(none) == header
  {
  }

  lemma LegacyStep(es: seq<LegacyEntry>, i: nat)
    requires i < |es|
    ensures LegacyBytes(es[..i + 1]) == LegacyBytes(es[..i]) + LegacyEntryBytes(es[i])
  {
    hide LegacyEntryBytes;
    assert es[..i + 1][..i] == es[..i];
  }

  // ----- Sizing

  /**
   `plan_body`'s size of the trailer, worked out before the inode has an address: all it
   knows is `bodySize + xattrLen`, which is where the body ends modulo 32.
   */
  function PlannedSize(format: Format, bodySize: nat, xattrLen: nat, nLclusters: nat, idata: nat): nat {
    var mod32 := (bodySize + xattrLen) % 32;
    match format
    case Legacy => 16 + nLclusters * LCLUSTER_INDEX_SIZE + idata
    case Compacted2B =>
      var ebaseMod32 := (AlignUp(mod32, 8) % 32 + 8) % 32;
      8 + PadBefore(mod32) + ComputeCompactGeom(ebaseMod32, nLclusters, true).Bytes() + idata
  }

  lemma GeomModulo32(a: nat, b: nat, n: nat)
    requires a % 32 == b % 32
    ensures ComputeCompactGeom(a, n, true) == ComputeCompactGeom(b, n, true)
  {
  }

  lemma AlignIs(x: nat)
    ensures AlignUp(x, 8) == x + PadBefore(x) && AlignUp(x, 8) % 8 == 0
  {
    var q, r := x / 8, x % 8;
    assert x + 7 == (if r == 0 then 8 * q + 7 else 8 * (q + 1) + (r - 1));
  }

  lemma EbaseModulo32(bodyEnd: nat, mod32: nat)
    requires mod32 == bodyEnd % 32
    ensures Ebase(bodyEnd) % 32 == (AlignUp(mod32, 8) % 32 + 8) % 32
    ensures PadBefore(bodyEnd) == PadBefore(mod32)
  {
    hide AlignUp, PadBefore;
    AlignIs(bodyEnd);
    AlignIs(mod32);
    SamePad(bodyEnd, mod32);
    ShiftModulo32(bodyEnd, mod32, PadBefore(mod32));
  }

  lemma AddMultiple(q: nat, x: nat)
    ensures (32 * q + x) % 32 == x % 32
  {
  }

  lemma ShiftModulo32(a: nat, b: nat, pad: nat)
    requires b == a % 32
    ensures (a + pad + 8) % 32 == ((b + pad) % 32 + 8) % 32
  {
    var q, p, rest := a / 32, (b + pad) / 32, (b + pad) % 32;
    assert a == 32 * q + b && b + pad == 32 * p + rest;
    AddMultiple(q + p, rest + 8);
    assert 32 * (q + p) + (rest + 8) == a + pad + 8;
  }

  lemma SamePad(a: nat, b: nat)
    requires b == a % 32
    ensures PadBefore(a) == PadBefore(b)
  {
    assert a % 8 == b % 8;
  }

  lemma SameRemainder(a: nat, b: nat)
    requires a % 32 == 0
    ensures (a + b) % 32 == b % 32
  {
  }

  /**
   The planned size is the emitted length, wherever the slot ends up: slots and the
   metadata area are 32-aligned, so the emission-time length check never fires.
   */
  lemma PlannedSizeIsEmitted(t: TrailerPlan, slot: nat, bodySize: nat, xattrLen: nat)
    requires t.Valid() && slot % 32 == 0
    ensures |TrailerBytes(t, slot + bodySize + xattrLen)|
            == PlannedSize(t.format, bodySize, xattrLen, |t.entries|, |t.InlineBytes()|)
  {
    hide *;
    var bodyEnd, mod32 := slot + bodySize + xattrLen, (bodySize + xattrLen) % 32;
    SameRemainder(slot, bodySize + xattrLen);
    EmittedLength(t, bodyEnd);
    if t.format == Compacted2B {
      EbaseModulo32(bodyEnd, mod32);
      GeomModulo32(Ebase(bodyEnd), (AlignUp(mod32, 8) % 32 + 8) % 32, |t.entries|);
    }
    PlannedLength(t.format, bodySize, xattrLen, |t.entries|, |t.InlineBytes()|);
  }

  /** Header, padding, index and inlined bytes, added up. */
  lemma EmittedLength(t: TrailerPlan, bodyEnd: nat)
    requires t.Valid()
    ensures |TrailerBytes(t, bodyEnd)|
            == (if t.format == Legacy then 16 + |t.entries| * 8
                else 8 + PadBefore(bodyEnd) + ComputeCompactGeom(Ebase(bodyEnd), |t.entries|, true).Bytes()) + |t.InlineBytes()|
  {
    hide LegacyBytes, IndexBytes, ComputeCompactGeom, CompactGeom.Bytes, HeaderBytes, PadBefore, Ebase;
    if t.format == Compacted2B {
      IndexLength(GeomOf(t, bodyEnd), t.Lobits(), CompactEntries(t));
    }
  }

  lemma PlannedLength(format: Format, bodySize: nat, xattrLen: nat, nLclusters: nat, idata: nat)
    ensures var mod32 := (bodySize + xattrLen) % 32;
            PlannedSize(format, bodySize, xattrLen, nLclusters, idata)
            == (if format == Legacy then 16 + nLclusters * 8
                else 8 + PadBefore(mod32) + ComputeCompactGeom((AlignUp(mod32, 8) % 32 + 8) % 32, nLclusters, true).Bytes()) + idata
  {
    hide ComputeCompactGeom, CompactGeom.Bytes, PadBefore, AlignUp;
  }

  // ----- Ztailpacking

  /** Whether the last pcluster's bytes go behind the index instead of into a block. */
  predicate Inlines(plan: Plan, requested: bool, format: Format, bodySize: nat, xattrLen: nat, bs: nat) {
    && requested && plan.pclusters != []
    && var raw := |plan.pclusters[|plan.pclusters| - 1].rawCompressed|;
       && 0 < raw <= U16_MAX
       && bodySize + xattrLen + PlannedSize(format, bodySize, xattrLen, |plan.entries|, raw) <= bs
  }

  /** The plan with its last pcluster taken out of the blocks. */
  function Stolen(plan: Plan): Plan
    requires plan.pclusters != []
  {
    var n := |plan.pclusters| - 1;
    var last := plan.pclusters[n];
    Plan(plan.pclusters[..n] + [last.(blockBytes := [], blockCount := 0, rawCompressed := [])],
         plan.entries, SatSub(plan.totalBlocks, last.blockCount))
  }

  /** The ztailpacking decision of `plan_body`: the plan it leaves, the bytes it inlines, the trailer size. */
  method PlanTail(plan: Plan, requested: bool, format: Format, bodySize: nat, xattrLen: nat, bs: nat)
    returns (left: Plan, inline: Option<seq<byte>>, zmapBytes: nat)
    ensures if Inlines(plan, requested, format, bodySize, xattrLen, bs)
            then left == Stolen(plan) && inline == Some(plan.pclusters[|plan.pclusters| - 1].rawCompressed)
            else left == plan && inline == None
    ensures zmapBytes == PlannedSize(format, bodySize, xattrLen, |plan.entries|,
                                     if inline.Some? then |inline.value| else 0)
  {
    hide ComputeCompactGeom;
    var idata := 0;
    inline := None;
    left := plan;
    if requested && plan.pclusters != [] {
      var last := |plan.pclusters| - 1;
      var candidate := |plan.pclusters[last].rawCompressed|;
      if candidate <= U16_MAX {
        if bodySize + xattrLen + PlannedSize(format, bodySize, xattrLen, |plan.entries|, candidate) <= bs {
          idata := candidate;
        }
      }
    }
    if idata > 0 {
      var last := |plan.pclusters| - 1;
      var stolen := plan.pclusters[last];
      inline := Some(stolen.rawCompressed);
      left := Plan(plan.pclusters[last := stolen.(rawCompressed := [], blockBytes := [], blockCount := 0)],
                   plan.entries, SatSub(plan.totalBlocks, stolen.blockCount));
      assert left.pclusters == Stolen(plan).pclusters;
    }
    zmapBytes := PlannedSize(format, bodySize, xattrLen, |plan.entries|, idata);
  }

  // ----- Block addresses

  function BlocksOf(ps: seq<PclusterPlan>): nat {
    if ps == [] then 0 else BlocksOf(ps[..|ps| - 1]) + ps[|ps| - 1].blockCount
  }

  /** The address of every pcluster: behind the blocks of those before it. */
  ghost predicate AddressesFrom(addrs: seq<nat>, ps: seq<PclusterPlan>, first: nat) {
    |addrs| == |ps| && forall k :: 0 <= k < |ps| ==> addrs[k] == first + BlocksOf(ps[..k])
  }

  /** The pcluster arm of the data pass: addresses from `first` on, and the next free block. */
  method AssignBlocks(ps: seq<PclusterPlan>, first: nat) returns (r: Result<(seq<nat>, nat)>)
    ensures r.Ok? ==> AddressesFrom(r.value.0, ps, first) && r.value.1 == first + BlocksOf(ps)
    ensures r.Ok? ==> forall k :: 0 <= k < |ps| ==> r.value.0[k] <= U32_MAX
    ensures r.Err? ==> first + BlocksOf(ps) > U32_MAX
  {
    var addrs: seq<nat>, next: nat := [], first;
    for k := 0 to |ps|
      invariant |addrs| == k && next == first + BlocksOf(ps[..k])
      invariant forall j :: 0 <= j < k ==> addrs[j] == first + BlocksOf(ps[..j]) && addrs[j] <= U32_MAX
    {
      if next > U32_MAX {
        BlocksGrow(ps, k);
        return Err;
      }
      addrs := addrs + [next];
      assert ps[..k + 1][..k] == ps[..k];
      next := next + ps[k].blockCount;
    }
    assert ps[..|ps|] == ps;
    return Ok((addrs, next));
  }

  lemma {:induction false} BlocksGrow(ps: seq<PclusterPlan>, k: nat)
    requires k <= |ps|
    ensures BlocksOf(ps[..k]) <= BlocksOf(ps)
    decreases |ps|
  {
    if k == |ps| {
      assert ps[..k] == ps;
    } else {
      assert ps[..|ps| - 1][..k] == ps[..k];
      BlocksGrow(ps[..|ps| - 1], k);
    }
  }

  lemma {:induction false} EqualBlocks(ps: seq<PclusterPlan>, m: nat)
    requires forall k :: 0 <= k < |ps| ==> ps[k].blockCount == m
    ensures BlocksOf(ps) == |ps| * m
    decreases |ps|
  {
    if ps != [] {
      EqualBlocks(ps[..|ps| - 1], m);
      MulStep(|ps| - 1, m);
    }
  }

  /**
   The addresses count up by the blocks of a pcluster, and still do when the last one gives
   up its blocks: its entry keeps the address it would have had.
   */
  lemma AddressesAreConsecutive(c: Config, src: seq<byte>, plan: Plan, left: Plan, addrs: seq<nat>, first: nat, k: nat)
    requires WfPlan(c, src, plan)
    requires left == plan || (plan.pclusters != [] && left == Stolen(plan))
    requires AddressesFrom(addrs, left.pclusters, first) && k < |plan.pclusters|
    ensures |addrs| == |plan.pclusters| && addrs[k] == first + k * c.targetBlocks
  {
    hide Maximal, EntriesOf, Contiguous;
    assert left.pclusters[..k] == plan.pclusters[..k];
    forall j | 0 <= j < k
      ensures plan.pclusters[..k][j].blockCount == c.targetBlocks
    {
      assert GoodPcluster(c, src, plan.pclusters[j]);
    }
    EqualBlocks(plan.pclusters[..k], c.targetBlocks);
  }
}
