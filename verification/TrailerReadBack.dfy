/**
 The reader's view of an emitted trailer: the header opens to the map the writer had in
 mind, the index reads back entry by entry, and the inlined bytes lie where the reader
 looks for them.
 */
module TrailerReadBack {
  import opened Basics
  import opened Bits
  import opened CompactIndex
  import opened CompactLimits
  import opened CompactPack
  import opened CompactRoundTrip
  import opened LegacyIndex
  import opened Trailer
  import opened ZMapReader

  function PadPart(t: TrailerPlan, bodyEnd: nat): seq<byte> {
    Zeros(if t.format == Legacy then 8 else PadBefore(bodyEnd))
  }

  function IndexPart(t: TrailerPlan, bodyEnd: nat): seq<byte>
    requires t.Valid()
  {
    if t.format == Legacy then LegacyBytes(LegacyEntries(t))
    else IndexBytes(GeomOf(t, bodyEnd), t.Lobits(), CompactEntries(t))
  }

  function AdviseOf(t: TrailerPlan, bodyEnd: nat): nat {
    Advise(t.format == Compacted2B && GeomOf(t, bodyEnd).use2bMiddle, t.inline.Some?)
  }

  /** Where the writer's index starts. */
  function IndexStart(t: TrailerPlan, bodyEnd: nat): nat {
    if t.format == Legacy then bodyEnd + 16 else Ebase(bodyEnd)
  }

  /** The map the reader should open. */
  function WrittenMap(t: TrailerPlan, bodyEnd: nat, size: nat): ZMap {
    ZMap(size, t.blkszbits, |t.InlineBytes()| * 0x1_0000, AdviseOf(t, bodyEnd), AlgorithmId(t.algo), t.lclusterbits,
         t.format == Legacy, IndexStart(t, bodyEnd),
         if t.format == Legacy then Regions(IndexStart(t, bodyEnd), 0, 0) else IndexRegions(t, bodyEnd))
  }

  /** The regions of the writer's compact index. */
  function IndexRegions(t: TrailerPlan, bodyEnd: nat): Regions {
    Regions(Ebase(bodyEnd), GeomOf(t, bodyEnd).initial, GeomOf(t, bodyEnd).middle)
  }

  /** One entry per lcluster, and inlined bytes that fit their 16-bit size (`PlanTail` sees to that). */
  ghost predicate Sized(t: TrailerPlan, size: nat) {
    && t.Valid() && |t.InlineBytes()| <= U16_MAX
    && |t.entries| == DivCeil(size, Pow2(t.blkszbits + t.lclusterbits)) <= U32_MAX
  }

  /** The writer's map is the one the reader opens: a legacy body must end on 8 bytes. */
  ghost predicate Sound(t: TrailerPlan, bodyEnd: nat, size: nat) {
    Sized(t, size) && (t.format == Legacy ==> bodyEnd % 8 == 0)
  }

  ghost predicate OnDevice(dev: seq<byte>, t: TrailerPlan, bodyEnd: nat)
    requires t.Valid()
  {
    ReadAt(dev, bodyEnd, |TrailerBytes(t, bodyEnd)|) == Ok(TrailerBytes(t, bodyEnd))
  }

  lemma FourParts(dev: seq<byte>, at: nat, a: seq<byte>, b: seq<byte>, c: seq<byte>, d: seq<byte>)
    requires ReadAt(dev, at, |a + b + c + d|) == Ok(a + b + c + d)
    ensures ReadAt(dev, at, |a|) == Ok(a)
    ensures ReadAt(dev, at + |a| + |b|, |c|) == Ok(c)
    ensures ReadAt(dev, at + |a| + |b| + |c|, |d|) == Ok(d)
  {
    var s, end := a + b + c + d, at + |a + b + c + d|;
    assert s[0..|a|] == a;
    assert s[|a| + |b|..|a| + |b| + |c|] == c;
    assert s[|a| + |b| + |c|..|s|] == d;
    SliceSlice(dev, at, end, 0, |a|);
    SliceSlice(dev, at, end, |a| + |b|, |a| + |b| + |c|);
    SliceSlice(dev, at, end, |a| + |b| + |c|, |s|);
  }

  lemma TrailerParts(dev: seq<byte>, t: TrailerPlan, bodyEnd: nat)
    requires t.Valid() && OnDevice(dev, t, bodyEnd)
    ensures ReadAt(dev, bodyEnd, 8)
            == Ok(HeaderBytes(|t.InlineBytes()|, AdviseOf(t, bodyEnd), AlgorithmId(t.algo), t.lclusterbits))
    ensures ReadAt(dev, IndexStart(t, bodyEnd), |IndexPart(t, bodyEnd)|) == Ok(IndexPart(t, bodyEnd))
    ensures ReadAt(dev, IndexStart(t, bodyEnd) + |IndexPart(t, bodyEnd)|, |t.InlineBytes()|) == Ok(t.InlineBytes())
  {
    hide HeaderBytes, IndexBytes, LegacyBytes, ReadAt, AlignUp, PadBefore, ComputeCompactGeom, AlgorithmId;
    AlignIs(bodyEnd);
    FourParts(dev, bodyEnd, HeaderBytes(|t.InlineBytes()|, AdviseOf(t, bodyEnd), AlgorithmId(t.algo), t.lclusterbits),
              PadPart(t, bodyEnd), IndexPart(t, bodyEnd), t.InlineBytes());
  }

  lemma HeaderFields(idata: nat, advise: nat, algorithm: nat, lclusterbits: nat)
    requires idata <= U16_MAX && advise < 0x1_0000 && algorithm < 16 && lclusterbits < 16
    ensures var h := HeaderBytes(idata, advise, algorithm, lclusterbits);
            LE(h[..4]) == idata * 0x1_0000 && LE(h[4..6]) == advise && h[6] == algorithm && h[7] == lclusterbits
  {
    hide LE, ToLE;
    var h := HeaderBytes(idata, advise, algorithm, lclusterbits);
    assert h[..4] == ToLE(idata * 0x1_0000, 4) && h[4..6] == ToLE(advise, 2);
    Pow2Of32();
    LEOfFitting(idata * 0x1_0000, 4);
    LEOfFitting(advise, 2);
  }

  lemma AdviseBits(use2b: bool, inline: bool)
    ensures var a := Advise(use2b, inline);
            && a < 0x1_0000
            && HasBit(a, ADVISE_COMPACTED_2B) == use2b && HasBit(a, ADVISE_INLINE_PCLUSTER) == inline
            && !HasBit(a, ADVISE_BIG_PCLUSTER_1) && !HasBit(a, ADVISE_BIG_PCLUSTER_2)
            && !HasBit(a, ADVISE_INTERLACED_PCLUSTER) && !HasBit(a, ADVISE_FRAGMENT_PCLUSTER)
  {
  }

  lemma OpenOf(dev: seq<byte>, bodyEnd: nat, size: nat, blkszbits: nat, legacy: bool, h: seq<byte>, bits: nat, n: nat)
    requires ReadAt(dev, bodyEnd, 8) == Ok(h) && |h| == 8 && h[7] == bits < 16
    requires n == DivCeil(size, Pow2(blkszbits + bits)) <= U32_MAX
    ensures var ebase, advise := Ebase(bodyEnd), LE(h[4..6]);
            OpenZMap(dev, bodyEnd, size, blkszbits, legacy)
            == Ok(ZMap(size, blkszbits, LE(h[..4]), advise, h[6], bits, legacy,
                       if legacy then ebase + 8 else ebase,
                       if legacy then Regions(ebase + 8, 0, 0)
                       else OpenRegions(ebase, n, HasBit(advise, ADVISE_COMPACTED_2B))))
  {
    hide LE, Pow2, DivCeil, OpenRegions, HasBit, AlignUp;
  }

  /** The emitted header opens to the writer's map. */
  lemma HeaderOpens(dev: seq<byte>, t: TrailerPlan, bodyEnd: nat, size: nat)
    requires Sound(t, bodyEnd, size) && OnDevice(dev, t, bodyEnd)
    ensures OpenZMap(dev, bodyEnd, size, t.blkszbits, t.format == Legacy) == Ok(WrittenMap(t, bodyEnd, size))
  {
    hide DivCeil, Pow2, GeomOf, AlgorithmId, AdviseOf, OnDevice, OpenZMap, AlignUp;
    HeaderOpensTo(dev, t, bodyEnd, size);
    if t.format == Legacy {
      AlreadyAligned(bodyEnd);
    }
  }

  /** What the emitted header opens to, wherever the body ends. */
  lemma HeaderOpensTo(dev: seq<byte>, t: TrailerPlan, bodyEnd: nat, size: nat)
    requires Sized(t, size) && OnDevice(dev, t, bodyEnd)
    ensures OpenZMap(dev, bodyEnd, size, t.blkszbits, t.format == Legacy)
            == Ok(ZMap(size, t.blkszbits, |t.InlineBytes()| * 0x1_0000, AdviseOf(t, bodyEnd), AlgorithmId(t.algo), t.lclusterbits,
                       t.format == Legacy, if t.format == Legacy then Ebase(bodyEnd) + 8 else Ebase(bodyEnd),
                       if t.format == Legacy then Regions(Ebase(bodyEnd) + 8, 0, 0) else IndexRegions(t, bodyEnd)))
  {
    hide *;
    var h := HeaderBytes(|t.InlineBytes()|, AdviseOf(t, bodyEnd), AlgorithmId(t.algo), t.lclusterbits);
    SizedParts(t, size);
    TrailerParts(dev, t, bodyEnd);
    AdviseIs(t, bodyEnd);
    HeaderFields(|t.InlineBytes()|, AdviseOf(t, bodyEnd), AlgorithmId(t.algo), t.lclusterbits);
    OpenOf(dev, bodyEnd, size, t.blkszbits, t.format == Legacy, h, t.lclusterbits, |t.entries|);
    if t.format == Compacted2B {
      RegionsOpened(t, bodyEnd);
    }
  }

  lemma SizedParts(t: TrailerPlan, size: nat)
    requires Sized(t, size)
    ensures t.Valid() && |t.InlineBytes()| <= U16_MAX && t.lclusterbits < 16
    ensures |t.entries| == DivCeil(size, Pow2(t.blkszbits + t.lclusterbits)) <= U32_MAX
  {
    hide DivCeil, Pow2;
  }

  lemma AdviseIs(t: TrailerPlan, bodyEnd: nat)
    ensures AdviseOf(t, bodyEnd) < 0x1_0000
    ensures HasBit(AdviseOf(t, bodyEnd), ADVISE_COMPACTED_2B) == (t.format == Compacted2B && GeomOf(t, bodyEnd).use2bMiddle)
  {
    hide HasBit, Advise, GeomOf;
    AdviseBits(t.format == Compacted2B && GeomOf(t, bodyEnd).use2bMiddle, t.inline.Some?);
  }

  lemma RegionsOpened(t: TrailerPlan, bodyEnd: nat)
    ensures OpenRegions(Ebase(bodyEnd), |t.entries|, GeomOf(t, bodyEnd).use2bMiddle) == IndexRegions(t, bodyEnd)
    ensures GoodRegions(IndexRegions(t, bodyEnd), |t.entries|)
  {
    hide AlignUp, ComputeCompactGeom, OpenRegions, DivCeil;
    OpenedGeometry(Ebase(bodyEnd), |t.entries|);
    AlignIs(bodyEnd);
    RegionsAligned(Ebase(bodyEnd), |t.entries|, GeomOf(t, bodyEnd).use2bMiddle);
  }

  lemma AlreadyAligned(bodyEnd: nat)
    requires bodyEnd % 8 == 0
    ensures AlignUp(bodyEnd, 8) == bodyEnd
  {
    AlignIs(bodyEnd);
  }

  lemma OpenedGeometry(ebase: nat, n: nat)
    ensures var g := ComputeCompactGeom(ebase, n, true);
            OpenRegions(ebase, n, g.use2bMiddle) == Regions(ebase, g.initial, g.middle)
  {
    hide DivCeil;
    GeometriesAgree(ebase, n);
  }

  /** What the opened map says about itself. */
  lemma MapFacts(t: TrailerPlan, bodyEnd: nat, size: nat)
    requires Sound(t, bodyEnd, size)
    ensures var z := WrittenMap(t, bodyEnd, size);
            && z.LclusterSize() == Pow2(t.blkszbits + t.lclusterbits) && z.NLclusters() == |t.entries|
            && z.Lobits() == t.Lobits() && !z.BigPcluster() && !z.Interlaced() && !z.HasFragment()
            && z.IndexBytesLen() == |IndexPart(t, bodyEnd)|
            && z.TailInline() == if t.inline.Some? then Some((IndexStart(t, bodyEnd) + |IndexPart(t, bodyEnd)|, |t.inline.value|)) else None
  {
    hide Pow2, DivCeil, ComputeCompactGeom, HasBit, Advise, IndexBytes, LegacyBytes;
    AdviseBits(t.format == Compacted2B && GeomOf(t, bodyEnd).use2bMiddle, t.inline.Some?);
    NoFullFragment(t.lclusterbits);
    InlineSize(|t.InlineBytes()|);
    if t.format == Compacted2B {
      IndexLength(GeomOf(t, bodyEnd), t.Lobits(), CompactEntries(t));
    }
  }

  lemma NoFullFragment(bits: nat)
    requires bits < 16
    ensures !HasBit(bits, FRAGMENT_INODE_BIT)
  {
  }

  lemma InlineSize(n: nat)
    requires n <= U16_MAX
    ensures n * 0x1_0000 / 0x1_0000 % 0x1_0000 == n
  {
  }

  // ----- The entries

  /** Entry `i` as a reader should see it. */
  function EntryAsRead(t: TrailerPlan, i: nat): LEntry
    requires t.Valid() && i < |t.entries|
  {
    var e := t.entries[i];
    LEntry(e.ctype, e.ctype, 0, if e.ctype == NONHEAD then e.ofsOrDelta0 else t.AddrOf(i), None)
  }

  /** Entries of the planner's making: types of the format, heads at offset 0, fields that fit. */
  ghost predicate PlannedEntries(t: TrailerPlan) {
    && t.Valid()
    && forall i :: 0 <= i < |t.entries| ==>
         && (t.entries[i].ctype == PLAIN || t.entries[i].ctype == HEAD1 || t.entries[i].ctype == NONHEAD)
         && (t.entries[i].ctype != NONHEAD ==> t.entries[i].ofsOrDelta0 == 0 && t.AddrOf(i) <= U32_MAX)
         && (t.entries[i].ctype == NONHEAD ==> t.entries[i].ofsOrDelta0 <= U16_MAX)
  }

  /** What the compact form's entries are on top: exact distances, addresses that fit. */
  ghost predicate CompactPlanned(t: TrailerPlan)
    requires t.Valid()
  {
    && ExactEntries(t.Lobits(), CompactEntries(t))
    && HeadsAtZero(CompactEntries(t))
    && AddressesFit(CompactEntries(t))
  }

  /**
   What it takes for the index to read back, and what the writer does not check: a legacy
   index must start where the reader looks, the packs of a compact one must survive.
   */
  ghost predicate IndexSurvives(t: TrailerPlan, bodyEnd: nat)
    requires t.Valid()
  {
    match t.format
    case Legacy => bodyEnd % 8 == 0
    case Compacted2B =>
      forall i :: 0 <= i < |t.entries| ==> Survives(IndexRegions(t, bodyEnd), t.Lobits(), CompactEntries(t), i)
  }

  /** Every entry reads back as it was written. */
  ghost predicate AllRead(dev: seq<byte>, z: ZMap, t: TrailerPlan)
    requires t.Valid()
  {
    forall i :: 0 <= i < |t.entries| ==> ReadLcluster(dev, z, i) == Ok(EntryAsRead(t, i))
  }

  /** The opened map of a compact index: entry by entry, what `ReadLclusterCompact` reads. */
  lemma CompactMapReads(dev: seq<byte>, t: TrailerPlan, bodyEnd: nat, size: nat, i: nat)
    requires Sized(t, size) && t.format == Compacted2B && PlannedEntries(t) && i < |t.entries|
    ensures ReadLcluster(dev, WrittenMap(t, bodyEnd, size), i)
            == ReadLclusterCompact(dev, IndexRegions(t, bodyEnd), t.Lobits(), false, i)
    ensures Expected(CompactEntries(t)[i]) == EntryAsRead(t, i)
  {
    hide ReadLclusterCompact, ZMap.Lobits, ZMap.BigPcluster, ZMap.NLclusters, GeomOf, TrailerPlan.Lobits;
    hide DivCeil, Pow2, AdviseOf;
    MapFacts(t, bodyEnd, size);
  }

  /** The compact index of a trailer, on the device, reads back exactly when its packs survive. */
  lemma CompactTrailerIff(dev: seq<byte>, t: TrailerPlan, bodyEnd: nat, size: nat)
    requires Sized(t, size) && OnDevice(dev, t, bodyEnd) && PlannedEntries(t)
    requires t.format == Compacted2B && CompactPlanned(t)
    ensures AllRead(dev, WrittenMap(t, bodyEnd, size), t) <==> IndexSurvives(t, bodyEnd)
  {
    hide Pow2, DivCeil, ComputeCompactGeom, TrailerBytes, IndexBytes, Sized, ExactEntries, AddressesFit, ReadAt, ReadLcluster, WrittenMap;
    hide ReadLclusterCompact, Survives, HeadsAtZero, PlannedEntries, EntryAsRead, Expected, AlignUp, CompactGeom.Bytes, GoodRegions, OnDevice;
    SizedParts(t, size);
    TrailerParts(dev, t, bodyEnd);
    RegionsOpened(t, bodyEnd);
    var es := CompactEntries(t);
    IndexLength(GeomOf(t, bodyEnd), t.Lobits(), es);
    CompactReadsBackIff(dev, IndexRegions(t, bodyEnd), GeomOf(t, bodyEnd), t.Lobits(), es);
    forall i | 0 <= i < |t.entries|
      ensures ReadLcluster(dev, WrittenMap(t, bodyEnd, size), i) == Ok(EntryAsRead(t, i))
              <==> ReadLclusterCompact(dev, IndexRegions(t, bodyEnd), t.Lobits(), false, i) == Ok(Expected(es[i]))
    {
      CompactMapReads(dev, t, bodyEnd, size, i);
    }
  }

  lemma LegacyMapReads(dev: seq<byte>, t: TrailerPlan, z: ZMap, i: nat)
    requires t.Valid() && t.format == Legacy && PlannedEntries(t) && i < |t.entries| == z.NLclusters()
    requires z.legacy && !z.BigPcluster()
    ensures ReadLcluster(dev, z, i) == ReadLclusterLegacy(dev, z.indexStart, false, i)
    ensures AsRead(LegacyEntries(t)[i]) == EntryAsRead(t, i) && LegacyFits(LegacyEntries(t)[i])
  {
    hide ReadLclusterLegacy, ZMap.BigPcluster, ZMap.NLclusters;
  }

  /** Either index reads back entry by entry. */
  lemma EntriesReadBack(dev: seq<byte>, t: TrailerPlan, bodyEnd: nat, size: nat)
    requires Sized(t, size) && OnDevice(dev, t, bodyEnd) && PlannedEntries(t) && IndexSurvives(t, bodyEnd)
    requires t.format == Compacted2B ==> CompactPlanned(t)
    ensures AllRead(dev, WrittenMap(t, bodyEnd, size), t)
  {
    hide OnDevice, CompactPlanned, PlannedEntries, WrittenMap, ReadLcluster, EntryAsRead, Survives, DivCeil, Pow2;
    if t.format == Legacy {
      forall i | 0 <= i < |t.entries|
        ensures ReadLcluster(dev, WrittenMap(t, bodyEnd, size), i) == Ok(EntryAsRead(t, i))
      {
        LegacyEntryReads(dev, t, bodyEnd, size, i);
      }
    } else {
      CompactTrailerIff(dev, t, bodyEnd, size);
    }
  }

  lemma LegacyEntryReads(dev: seq<byte>, t: TrailerPlan, bodyEnd: nat, size: nat, i: nat)
    requires Sized(t, size) && OnDevice(dev, t, bodyEnd) && PlannedEntries(t) && i < |t.entries|
    requires t.format == Legacy && bodyEnd % 8 == 0
    ensures ReadLcluster(dev, WrittenMap(t, bodyEnd, size), i) == Ok(EntryAsRead(t, i))
  {
    hide Pow2, DivCeil, OnDevice, LegacyBytes, PlannedEntries, ReadLclusterLegacy, LegacyFits, ReadAt, ReadLcluster, ZMap.BigPcluster;
    hide ZMap.NLclusters, EntryAsRead, AsRead, AdviseOf, LegacyEntries, AlgorithmId;
    MapFacts(t, bodyEnd, size);
    TrailerParts(dev, t, bodyEnd);
    LegacyMapReads(dev, t, WrittenMap(t, bodyEnd, size), i);
    LegacyIndexReadsBack(dev, bodyEnd + 16, LegacyEntries(t), i);
  }

  /**
   The index of a trailer reads back exactly under what `IndexSurvives` asks: opened as the
   reader opens it, every entry comes back as planned or some entry does not.
   */
  lemma TrailerReadsBackIff(dev: seq<byte>, t: TrailerPlan, bodyEnd: nat, size: nat)
    requires Sized(t, size) && OnDevice(dev, t, bodyEnd) && PlannedEntries(t) && bodyEnd % 4 == 0
    requires t.entries != [] && t.entries[0].ctype != NONHEAD && t.AddrOf(0) >= 2
    requires t.format == Compacted2B ==> CompactPlanned(t)
    ensures var z := OpenZMap(dev, bodyEnd, size, t.blkszbits, t.format == Legacy);
            z.Ok? && (AllRead(dev, z.value, t) <==> IndexSurvives(t, bodyEnd))
  {
    hide OnDevice, CompactPlanned, PlannedEntries, AllRead, IndexSurvives, OpenZMap, Sized, AlignUp, GeomOf, AdviseOf, AlgorithmId;
    HeaderOpensTo(dev, t, bodyEnd, size);
    if t.format == Compacted2B {
      CompactTrailerIff(dev, t, bodyEnd, size);
    } else {
      LegacyTrailerIff(dev, t, bodyEnd, size, OpenZMap(dev, bodyEnd, size, t.blkszbits, true).value);
    }
  }

  lemma LegacyTrailerIff(dev: seq<byte>, t: TrailerPlan, bodyEnd: nat, size: nat, z: ZMap)
    requires Sized(t, size) && OnDevice(dev, t, bodyEnd) && PlannedEntries(t) && bodyEnd % 4 == 0 && t.format == Legacy
    requires t.entries != [] && t.entries[0].ctype != NONHEAD && t.AddrOf(0) >= 2
    requires z.size == size && z.blkszbits == t.blkszbits && z.clusterbits == t.lclusterbits && z.advise == AdviseOf(t, bodyEnd)
    requires z.legacy && z.indexStart == Ebase(bodyEnd) + 8
    ensures AllRead(dev, z, t) <==> IndexSurvives(t, bodyEnd)
  {
    hide Pow2, DivCeil, OnDevice, LegacyBytes, ReadLclusterLegacy, ReadAt, ReadLcluster, HasBit, Advise, AlignUp;
    AdviseBits(false, t.inline.Some?);
    TrailerParts(dev, t, bodyEnd);
    var es := LegacyEntries(t);
    forall i | 0 <= i < |t.entries|
      ensures LegacyFits(es[i])
      ensures ReadLcluster(dev, z, i) == Ok(EntryAsRead(t, i)) <==> ReadLclusterLegacy(dev, ReaderIndexStart(bodyEnd), false, i) == Ok(AsRead(es[i]))
    {
      LegacyMapReads(dev, t, z, i);
    }
    LegacyReadsBackIffAligned(dev, bodyEnd, es);
  }
}
