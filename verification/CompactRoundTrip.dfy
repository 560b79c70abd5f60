/**
 Reading the compact index back: `read_lcluster_compact` over the bytes the writer
 emits gives each entry's type, offset, absolute block address or distance.
 */
module CompactRoundTrip {
  import opened Basics
  import opened Bits
  import opened CompactPack
  import opened CompactIndex

  /** A decoded index entry, whichever format it came from (`LClusterEntry`). */
  datatype LEntry = LEntry(ctype: nat, adviseRaw: nat, clusterofs: nat, uRaw: nat, cblkcnt: Option<nat>)

  // ----- Reader

  /** What `read_lcluster_compact` makes of entry `intra` of one pack's bytes. */
  function ReadFromPack(g: PackGeom, pack: seq<byte>, intra: nat, bigPcluster: bool): Result<LEntry>
    requires |pack| == g.shape.BitstreamLen() + 4
  {
    var bits := pack[..g.shape.BitstreamLen()];
    var base := LE(pack[g.shape.BitstreamLen()..]);
    var e :- DecodePackedEntry(g, bits, intra);
    if IsHeadOrPlain(e.ctype) then
      var nblk :- if bigPcluster then CountBigPcluster(g, bits, intra) else CountSimple(g, bits, intra);
      if base + nblk > U32_MAX then Err
      else Ok(LEntry(e.ctype, e.ctype, e.lo % 0x1_0000, base + nblk, None))
    else if e.ctype == NONHEAD then
      if bigPcluster && HasCblkcnt(e.lo) then
        Ok(LEntry(e.ctype, e.ctype, 0, 1, Some(e.lo % CBLKCNT)))
      else
        var delta0 :- NonheadDelta0(g, bits, intra, e.lo);
        Ok(LEntry(e.ctype, e.ctype, 0, delta0, None))
    else Err
  }

  /** Entry `intra` of the pack at `offset` of the device. */
  function ReadPackAt(dev: seq<byte>, offset: nat, g: PackGeom, intra: nat, bigPcluster: bool): Result<LEntry>
    requires FormatShape(g.shape)
  {
    var pack :- ReadAt(dev, offset, g.shape.packBytes);
    ReadFromPack(g, pack, intra, bigPcluster)
  }

  /** `read_lcluster_compact`. */
  function ReadLclusterCompact(dev: seq<byte>, r: Regions, lobits: nat, bigPcluster: bool, i: nat): Result<LEntry> {
    var loc := LocateCompactPack(r, i);
    ReadPackAt(dev, loc.offset, PackGeom(loc.shape, lobits), loc.intra, bigPcluster)
  }

  // ----- What the writer promises about its entries

  /** Field widths of one entry: a type of the format, and a head's offset inside its field. */
  ghost predicate FieldsFit(lobits: nat, e: Raw) {
    && (IsHeadOrPlain(e.ctype) || e.ctype == NONHEAD)
    && e.lo < 0x1_0000 && (e.ctype != NONHEAD ==> e.lo < Pow2(lobits))
  }

  /** A whole index as the planner leaves it: exact distances, however long, none reaching past the start. */
  ghost predicate ExactEntries(lobits: nat, es: seq<CompactEntry>) {
    && (forall i :: 0 <= i < |es| ==> FieldsFit(lobits, es[i].raw))
    && DeltasExact(Raws(es))
    && (forall i :: 0 <= i < |es| && es[i].raw.ctype == NONHEAD ==> es[i].raw.lo <= i)
  }

  /** The same, with one block per pcluster from block `first` on. */
  ghost predicate WellFormedEntries(lobits: nat, es: seq<CompactEntry>, first: nat) {
    ExactEntries(lobits, es) && OneBlockEach(es, first)
  }

  /** Every distance fits the field that is to hold it. */
  ghost predicate SmallDistances(lobits: nat, es: seq<CompactEntry>) {
    forall i :: 0 <= i < |es| && es[i].raw.ctype == NONHEAD ==> es[i].raw.lo < Pow2(lobits)
  }

  /** The block address of every HEAD and PLAIN entry, counted from `first`; it fits its field. */
  ghost predicate OneBlockEach(es: seq<CompactEntry>, first: nat) {
    forall i :: 0 <= i < |es| && es[i].raw.ctype != NONHEAD ==>
      es[i].blkaddr == first + HeadsIn(Raws(es)[..i]) <= U32_MAX
  }

  /** The entry a reader should see for writer entry `e`. */
  function Expected(e: CompactEntry): LEntry {
    if e.raw.ctype == NONHEAD then LEntry(NONHEAD, NONHEAD, 0, e.raw.lo, None)
    else LEntry(e.raw.ctype, e.raw.ctype, e.raw.lo, e.blkaddr, None)
  }

  // ----- One pack

  /** A pack's worth of such an index. The first entries may belong to an earlier head. */
  ghost predicate ExactPack(lobits: nat, es: seq<CompactEntry>) {
    && (forall i :: 0 <= i < |es| ==> FieldsFit(lobits, es[i].raw))
    && DeltasExact(Raws(es))
    && (forall i :: 0 < i < |es| && es[i].raw.ctype == NONHEAD && es[i - 1].raw.ctype == NONHEAD ==>
          es[i].raw.lo == es[i - 1].raw.lo + 1)
  }

  ghost predicate WellFormedPack(lobits: nat, es: seq<CompactEntry>, first: nat) {
    ExactPack(lobits, es) && OneBlockEach(es, first)
  }

  lemma {:induction false} BaseIsBeforeFirst(es: seq<CompactEntry>, first: nat, i: nat)
    requires OneBlockEach(es, first) && first > 0
    requires i < |es| && es[i].raw.ctype != NONHEAD
    ensures BaseOf(es) == first - 1
    decreases |es|
  {
    hide HeadsIn;
    if es[0].raw.ctype != NONHEAD {
      NoHeadsAtStart(Raws(es));
    } else {
      var rest := es[1..];
      forall k | 0 <= k < |rest| && rest[k].raw.ctype != NONHEAD
        ensures rest[k].blkaddr == first + HeadsIn(Raws(rest)[..k]) <= U32_MAX
      {
        assert rest[k] == es[k + 1];
        FrontRaw(es, k);
        HeadsOfConcat([es[0].raw], Raws(rest)[..k]);
        OneHead(es[0].raw);
      }
      BaseIsBeforeFirst(rest, first, i - 1);
    }
  }

  lemma FrontRaw(es: seq<CompactEntry>, k: nat)
    requires es != [] && k < |es|
    ensures Raws(es)[..k + 1] == [es[0].raw] + Raws(es[1..])[..k]
  {
    var whole, rest := Raws(es)[..k + 1], Raws(es[1..])[..k];
    forall j | 0 <= j <= k
      ensures whole[j] == ([es[0].raw] + rest)[j]
    {
      if j > 0 {
        assert rest[j - 1] == es[1..][j - 1].raw == es[j].raw;
      }
    }
  }

  lemma OneHead(e: Raw)
    ensures HeadsIn([e]) == if e.ctype == NONHEAD then 0 else 1
  {
    assert [e][..0] == [];
  }

  lemma {:induction false} HeadsOfConcat(a: seq<Raw>, b: seq<Raw>)
    ensures HeadsIn(a + b) == HeadsIn(a) + HeadsIn(b)
    decreases |b|
  {
    if b == [] {
      assert a + b == a;
    } else {
      var n := |b| - 1;
      assert (a + b)[..|a| + n] == a + b[..n];
      HeadsOfConcat(a, b[..n]);
    }
  }

  /** The packed entries decode to themselves when their fields fit. */
  lemma PackDecodes(g: PackGeom, es: seq<CompactEntry>)
    requires FormatShape(g.shape) && g.lobits + 2 <= g.shape.encodebits && |es| <= g.shape.vcnt
    requires ExactPack(g.lobits, es) && SmallDistances(g.lobits, es)
    ensures Decodes(g, PackBytes(g.shape, g.lobits, es)[..g.shape.BitstreamLen()], Raws(es))
  {
    hide DecodePackedEntry, Packed, DeltasExact, OneBlockEach, Pow2, Low, Shr, ToLE, BaseOf;
    var rs, len := Raws(es), g.shape.BitstreamLen();
    var bits := ToLE(Packed(g.shape.encodebits, g.lobits, rs), len);
    assert PackBytes(g.shape, g.lobits, es)[..len] == bits;
    forall i | 0 <= i < |rs|
      ensures DecodePackedEntry(g, bits, i) == Ok(rs[i])
    {
      DecodeOfPacked(g, rs, i);
      assert FieldsFit(g.lobits, es[i].raw);
      SmallShr(rs[i].lo, g.lobits);
      LowOfSmall(rs[i].lo, g.lobits);
    }
  }

  /** No NONHEAD from `from` to `upTo` has a distance that the reader would take for a block count. */
  ghost predicate NoMarkers(es: seq<CompactEntry>, from: int, upTo: int) {
    forall j :: 0 <= j < |es| && from <= j < upTo && es[j].raw.ctype == NONHEAD ==> !HasCblkcnt(es[j].raw.lo)
  }

  /** An entry of an emitted pack reads back, whatever lies before the pack, if no marker does in it. */
  lemma PackReadsBack(g: PackGeom, es: seq<CompactEntry>, first: nat, intra: nat)
    requires FormatShape(g.shape) && g.lobits + 2 <= g.shape.encodebits && |es| <= g.shape.vcnt
    requires WellFormedPack(g.lobits, es, first) && SmallDistances(g.lobits, es) && 0 < first
    requires intra < |es| && NoMarkers(es, 0, intra)
    ensures ReadFromPack(g, PackBytes(g.shape, g.lobits, es), intra, false) == Ok(Expected(es[intra]))
  {
    hide ExactPack, PackBytes, ReadFromPack, Expected, NoMarkers;
    PackDecodes(g, es);
    DecodedPackReadsBack(g, es, first, intra);
  }

  /** The same for any pack whose entries are cut out of it intact. */
  lemma DecodedPackReadsBack(g: PackGeom, es: seq<CompactEntry>, first: nat, intra: nat)
    requires FormatShape(g.shape) && |es| <= g.shape.vcnt && WellFormedPack(g.lobits, es, first) && 0 < first
    requires Decodes(g, PackBytes(g.shape, g.lobits, es)[..g.shape.BitstreamLen()], Raws(es))
    requires intra < |es| && NoMarkers(es, 0, intra)
    ensures ReadFromPack(g, PackBytes(g.shape, g.lobits, es), intra, false) == Ok(Expected(es[intra]))
  {
    hide DecodePackedEntry, Packed, HeadsIn, HasCblkcnt, CountSimple, DeltasExact, CountBigPcluster;
    hide OneBlockEach, NonheadDelta0, BaseOf, PackBytes, LE;
    var rs, len := Raws(es), g.shape.BitstreamLen();
    var bits := PackBytes(g.shape, g.lobits, es)[..len];
    assert DecodePackedEntry(g, bits, intra) == Ok(rs[intra]);
    assert FieldsFit(g.lobits, es[intra].raw);
    if rs[intra].ctype == NONHEAD {
      Delta0IsDistance(g, bits, rs, intra);
    } else {
      CountSimpleCountsHeads(g, bits, rs, intra);
      BlockOf(es, first, intra);
      BaseReadsBack(g.shape, g.lobits, es, first, intra);
    }
  }

  lemma BaseReadsBack(shape: Shape, lobits: nat, es: seq<CompactEntry>, first: nat, i: nat)
    requires OneBlockEach(es, first) && 0 < first
    requires i < |es| && es[i].raw.ctype != NONHEAD
    ensures LE(PackBytes(shape, lobits, es)[shape.BitstreamLen()..]) == first - 1
  {
    hide Packed, LE, BaseOf, OneBlockEach;
    BaseIsBeforeFirst(es, first, i);
    BlockOf(es, first, i);
    assert PackBytes(shape, lobits, es)[shape.BitstreamLen()..] == ToLE(BaseOf(es), 4);
    Pow2Of32();
    LEOfFitting(BaseOf(es), 4);
  }

  lemma BlockOf(es: seq<CompactEntry>, first: nat, i: nat)
    requires OneBlockEach(es, first) && i < |es| && es[i].raw.ctype != NONHEAD
    ensures es[i].blkaddr == first + HeadsIn(Raws(es)[..i]) <= U32_MAX
  {
  }

  lemma Pow2Of32()
    ensures Pow2(16) == 0x1_0000 && Pow2(32) == 0x1_0000_0000
  {
    assert Pow2(8) == 256;
    Pow2Add(8, 8);
    Pow2Add(16, 16);
  }

  // ----- One pack of big pclusters

  /** Markers stand right behind their head, or open the pack for a head in front of it. */
  ghost predicate MarkersInPlace(rs: seq<Raw>) {
    forall j :: 0 < j < |rs| && IsMarker(rs[j]) ==> rs[j - 1].ctype != NONHEAD
  }

  /** Blocks of the pcluster head `i` opens, as far as the first `n` entries tell. */
  function PclusterBlocks(rs: seq<Raw>, i: nat, n: nat): nat
    requires i < n <= |rs|
  {
    if i + 1 < n && IsMarker(rs[i + 1]) then MarkedBlocks(rs[i + 1]) else 1
  }

  /** Blocks the pack's opening marker counts, for a head in front of the pack. */
  function BlocksCarriedIn(rs: seq<Raw>): nat {
    if rs != [] && IsMarker(rs[0]) then MarkedBlocks(rs[0]) else 0
  }

  /** The last head in front of entry `n`. */
  function LastHead(rs: seq<Raw>, n: nat): (h: Option<nat>)
    requires n <= |rs|
    ensures h.Some? ==> h.value < n && rs[h.value].ctype != NONHEAD
    ensures forall k :: (if h.Some? then h.value + 1 else 0) <= k < n ==> rs[k].ctype == NONHEAD
  {
    if n == 0 then None else if rs[n - 1].ctype != NONHEAD then Some(n - 1) else LastHead(rs, n - 1)
  }

  /** Head `i` has address `addrs[i]`, and pclusters lie one behind the other from block `base` on. */
  ghost predicate Consecutive(rs: seq<Raw>, addrs: seq<nat>, base: nat) {
    && |addrs| == |rs|
    && forall j :: 0 <= j < |rs| && rs[j].ctype != NONHEAD ==>
         addrs[j] == match LastHead(rs, j)
                     case None => base + BlocksCarriedIn(rs)
                     case Some(i) => addrs[i] + PclusterBlocks(rs, i, |rs|)
  }

  /** One more entry: a head counts one block until its marker is seen. */
  lemma {:induction false} BlocksSnoc(es: seq<Raw>, e: Raw)
    ensures BlocksRecorded(es + [e]) + (if IsMarker(e) && es != [] && es[|es| - 1].ctype != NONHEAD then 1 else 0)
            == BlocksRecorded(es) + (if e.ctype != NONHEAD then 1 else if IsMarker(e) then MarkedBlocks(e) else 0)
    decreases |es|
  {
    hide HasCblkcnt, MarkedBlocks;
    var all := es + [e];
    if es == [] {
      assert all == [e] && all[1..] == [];
    } else if es[0].ctype != NONHEAD && |es| > 1 && IsMarker(es[1]) {
      assert all[2..] == es[2..] + [e];
      BlocksSnoc(es[2..], e);
    } else {
      assert all[1..] == es[1..] + [e];
      BlocksSnoc(es[1..], e);
      assert |es| == 1 ==> all[2..] == [];
    }
  }

  /** The blocks recorded before entry `n` lead to the end of the last pcluster seen. */
  lemma {:induction false} RecordedReaches(rs: seq<Raw>, addrs: seq<nat>, base: nat, n: nat)
    requires MarkersInPlace(rs) && Consecutive(rs, addrs, base) && n <= |rs|
    ensures match LastHead(rs, n)
            case None => BlocksRecorded(rs[..n]) == if n > 0 then BlocksCarriedIn(rs) else 0
            case Some(i) => base + BlocksRecorded(rs[..n]) == addrs[i] + PclusterBlocks(rs, i, n)
    decreases n
  {
    hide HasCblkcnt, MarkedBlocks, BlocksRecorded, Consecutive;
    if n == 0 {
      NothingRecorded(rs[..0]);
    } else {
      var m := n - 1;
      RecordedReaches(rs, addrs, base, m);
      BlocksSnoc(rs[..m], rs[m]);
      assert rs[..n] == rs[..m] + [rs[m]];
      if rs[m].ctype != NONHEAD {
        HeadAddress(rs, addrs, base, m);
      }
    }
  }

  lemma NothingRecorded(none: seq<Raw>)
    requires none == []
    ensures BlocksRecorded(none) == 0
  {
  }

  /** From what is recorded before a head follows the head's own address. */
  lemma HeadAddress(rs: seq<Raw>, addrs: seq<nat>, base: nat, m: nat)
    requires Consecutive(rs, addrs, base) && m < |rs| && rs[m].ctype != NONHEAD
    requires match LastHead(rs, m)
             case None => BlocksRecorded(rs[..m]) == if m > 0 then BlocksCarriedIn(rs) else 0
             case Some(i) => base + BlocksRecorded(rs[..m]) == addrs[i] + PclusterBlocks(rs, i, m)
    ensures base + BlocksRecorded(rs[..m]) == addrs[m]
  {
    hide HasCblkcnt, MarkedBlocks, BlocksRecorded;
  }

  /** The distance the last entry of a pack derives from its neighbour. */
  ghost predicate StepBehind(rs: seq<Raw>, i: nat) {
    0 < i < |rs| ==>
      rs[i].lo == 1 + if rs[i - 1].ctype != NONHEAD then 0 else if IsMarker(rs[i - 1]) then 1 else rs[i - 1].lo
  }

  /**
   Any entry of a pack of big pclusters reads back: a head with its own block address, a
   marker with the blocks of its pcluster, any other entry with its distance.
   */
  lemma BigPackReadsBack(g: PackGeom, pack: seq<byte>, rs: seq<Raw>, addrs: seq<nat>, base: nat, intra: nat)
    requires FormatShape(g.shape) && g.lobits < 32 && |pack| == g.shape.BitstreamLen() + 4
    requires Decodes(g, pack[..g.shape.BitstreamLen()], rs) && LE(pack[g.shape.BitstreamLen()..]) == base
    requires MarkersInPlace(rs) && Consecutive(rs, addrs, base)
    requires intra < |rs| <= g.shape.vcnt && rs[intra].lo < 0x1_0000 && addrs[intra] <= U32_MAX
    requires IsHeadOrPlain(rs[intra].ctype) || rs[intra].ctype == NONHEAD
    ensures var e := rs[intra];
            && (e.ctype != NONHEAD ==> ReadFromPack(g, pack, intra, true) == Ok(LEntry(e.ctype, e.ctype, e.lo, addrs[intra], None)))
            && (IsMarker(e) ==> ReadFromPack(g, pack, intra, true) == Ok(LEntry(NONHEAD, NONHEAD, 0, 1, Some(MarkedBlocks(e)))))
            && (e.ctype == NONHEAD && !IsMarker(e) && StepBehind(rs, intra) ==>
                  ReadFromPack(g, pack, intra, true) == Ok(LEntry(NONHEAD, NONHEAD, 0, e.lo, None)))
  {
    hide DecodePackedEntry, HasCblkcnt, BlocksRecorded, FirstEntries, LE, CountSimple, Consecutive;
    var bits := pack[..g.shape.BitstreamLen()];
    assert DecodePackedEntry(g, bits, intra) == Ok(rs[intra]);
    if rs[intra].ctype != NONHEAD {
      RecordedReaches(rs, addrs, base, intra);
      HeadAddress(rs, addrs, base, intra);
      FirstAre(g, bits, rs, intra);
    } else if intra > 0 {
      assert DecodePackedEntry(g, bits, intra - 1) == Ok(rs[intra - 1]);
    }
  }

  lemma FirstAre(g: PackGeom, bits: seq<byte>, rs: seq<Raw>, n: nat)
    requires g.lobits < 32 && Decodes(g, bits, rs) && n <= |rs|
    ensures FirstEntries(g, bits, n) == rs[..n]
  {
    hide DecodePackedEntry;
  }

  // ----- One region

  /** What a region has behind its first pack it has one pack earlier without it. */
  lemma BehindFirstPack(shape: Shape, lobits: nat, es: seq<CompactEntry>, from: nat, upTo: nat, lo: nat, hi: nat)
    requires FormatShape(shape) && |es| > shape.vcnt && lo <= hi <= |es| - shape.vcnt
    requires from <= upTo <= |RegionBytes(shape, lobits, es[shape.vcnt..])|
    requires RegionBytes(shape, lobits, es[shape.vcnt..])[from..upTo] == PackBytes(shape, lobits, es[shape.vcnt..][lo..hi])
    ensures |RegionBytes(shape, lobits, es)| == shape.packBytes + |RegionBytes(shape, lobits, es[shape.vcnt..])|
    ensures RegionBytes(shape, lobits, es)[from + shape.packBytes..upTo + shape.packBytes]
            == PackBytes(shape, lobits, es[lo + shape.vcnt..hi + shape.vcnt])
  {
    hide PackBytes, RegionBytes;
    RegionUnfold(shape, lobits, es);
    SliceOfTail(PackBytes(shape, lobits, es[..shape.vcnt]), RegionBytes(shape, lobits, es[shape.vcnt..]),
                from + shape.packBytes, upTo + shape.packBytes);
    assert es[shape.vcnt..] == es[shape.vcnt..|es|];
    SliceSlice(es, shape.vcnt, |es|, lo, hi);
  }

  lemma FirstPack(shape: Shape, lobits: nat, es: seq<CompactEntry>)
    requires FormatShape(shape) && es != []
    ensures shape.packBytes <= |RegionBytes(shape, lobits, es)|
    ensures RegionBytes(shape, lobits, es)[..shape.packBytes] == PackBytes(shape, lobits, es[..Min(shape.vcnt, |es|)])
  {
    hide PackBytes, RegionBytes;
    RegionUnfold(shape, lobits, es);
  }

  /** Pack `p`, by the position of its bytes and of its first entry. */
  lemma {:induction false} RegionPackAt(shape: Shape, lobits: nat, es: seq<CompactEntry>, p: nat, byteAt: nat, at: nat)
    requires FormatShape(shape) && byteAt == p * shape.packBytes && at == p * shape.vcnt < |es|
    ensures byteAt + shape.packBytes <= |RegionBytes(shape, lobits, es)|
    ensures RegionBytes(shape, lobits, es)[byteAt..byteAt + shape.packBytes]
            == PackBytes(shape, lobits, es[at..Min(at + shape.vcnt, |es|)])
    decreases p
  {
    hide PackBytes, RegionBytes, FormatShape;
    if p == 0 {
      FirstPack(shape, lobits, es);
      assert es[0..Min(shape.vcnt, |es|)] == es[..Min(shape.vcnt, |es|)];
    } else {
      var n, k := shape.vcnt, shape.packBytes;
      MulStep(p - 1, n);
      MulStep(p - 1, k);
      RegionPackAt(shape, lobits, es[n..], p - 1, byteAt - k, at - n);
      BehindFirstPack(shape, lobits, es, byteAt - k, byteAt, at - n, Min(at, |es| - n));
    }
  }

  /** Pack `p` of an emitted region is exactly the pack of its slice of entries. */
  lemma RegionPack(shape: Shape, lobits: nat, es: seq<CompactEntry>, p: nat)
    requires FormatShape(shape) && p * shape.vcnt < |es|
    ensures |RegionBytes(shape, lobits, es)| == shape.BytesFor(|es|)
    ensures (p + 1) * shape.packBytes <= shape.BytesFor(|es|)
    ensures RegionBytes(shape, lobits, es)[p * shape.packBytes..(p + 1) * shape.packBytes]
            == PackBytes(shape, lobits, es[p * shape.vcnt..Min((p + 1) * shape.vcnt, |es|)])
  {
    hide PackBytes, RegionBytes, Shape.BytesFor, FormatShape;
    RegionLength(shape, lobits, es);
    RegionPackAt(shape, lobits, es, p, p * shape.packBytes, p * shape.vcnt);
    MulStep(p, shape.vcnt);
    MulStep(p, shape.packBytes);
  }

  lemma RegionUnfold(shape: Shape, lobits: nat, es: seq<CompactEntry>)
    requires FormatShape(shape) && es != []
    ensures var take := Min(|es|, shape.vcnt);
            RegionBytes(shape, lobits, es)
            == PackBytes(shape, lobits, es[..take]) + RegionBytes(shape, lobits, es[take..])
  {
  }

  lemma {:induction false} RegionLength(shape: Shape, lobits: nat, es: seq<CompactEntry>)
    requires FormatShape(shape)
    ensures |RegionBytes(shape, lobits, es)| == shape.BytesFor(|es|)
    decreases |es|
  {
    hide Shape.BytesFor;
    BytesForStep(shape, |es|);
    if es != [] {
      RegionLength(shape, lobits, es[Min(|es|, shape.vcnt)..]);
    }
  }

  lemma IndexLength(geom: CompactGeom, lobits: nat, es: seq<CompactEntry>)
    requires geom.TotalIdx() == |es| && (geom.use2bMiddle <==> geom.middle > 0)
    ensures |IndexBytes(geom, lobits, es)| == geom.Bytes()
  {
    hide RegionBytes;
    var afterMiddle := geom.initial + geom.middle;
    RegionLength(COMPACT_4B, lobits, es[..geom.initial]);
    RegionLength(COMPACT_2B, lobits, es[geom.initial..afterMiddle]);
    RegionLength(COMPACT_4B, lobits, es[afterMiddle..]);
  }

  // ----- The whole index

  /** Two neighbouring NONHEAD entries are one step apart. */
  lemma DeltaStep(rs: seq<Raw>, i: nat)
    requires DeltasExact(rs) && forall k :: 0 <= k < |rs| && rs[k].ctype == NONHEAD ==> rs[k].lo <= k
    requires 0 < i < |rs| && rs[i].ctype == NONHEAD && rs[i - 1].ctype == NONHEAD
    ensures rs[i].lo == rs[i - 1].lo + 1
  {
    var h, h1 := i - rs[i].lo, i - 1 - rs[i - 1].lo;
    assert AllNonhead(rs, h + 1, i) && AllNonhead(rs, h1 + 1, i - 1);
    assert rs[h].ctype != NONHEAD && rs[h1].ctype != NONHEAD;
  }

  lemma SliceDeltas(rs: seq<Raw>, from: nat, upTo: nat)
    requires DeltasExact(rs) && from <= upTo <= |rs|
    ensures DeltasExact(rs[from..upTo])
  {
    var ps := rs[from..upTo];
    forall j | 0 <= j < |ps| && ps[j].ctype == NONHEAD
      ensures ps[j].lo >= 1 && AllNonhead(ps, j - ps[j].lo + 1, j)
      ensures ps[j].lo <= j ==> ps[j - ps[j].lo].ctype != NONHEAD
    {
      assert rs[from + j].ctype == NONHEAD;
      assert AllNonhead(rs, from + j - rs[from + j].lo + 1, from + j);
      forall k | 0 <= k < |ps| && j - ps[j].lo + 1 <= k <= j
        ensures ps[k].ctype == NONHEAD
      {
        assert ps[k] == rs[from + k];
      }
    }
  }

  lemma SliceBlocks(es: seq<CompactEntry>, first: nat, from: nat, upTo: nat)
    requires OneBlockEach(es, first) && from <= upTo <= |es|
    ensures OneBlockEach(es[from..upTo], first + HeadsIn(Raws(es)[..from]))
  {
    hide HeadsIn;
    var slice, rs := es[from..upTo], Raws(es);
    forall j | 0 <= j < |slice| && slice[j].raw.ctype != NONHEAD
      ensures slice[j].blkaddr == first + HeadsIn(rs[..from]) + HeadsIn(Raws(slice)[..j]) <= U32_MAX
    {
      assert slice[j] == es[from + j];
      BlockOf(es, first, from + j);
      PrefixOfSlice(es, from, upTo, j);
      HeadsOfConcat(rs[..from], Raws(slice)[..j]);
    }
  }

  /** The entries in front of one of a slice: those in front of the slice, and its own. */
  lemma PrefixOfSlice(es: seq<CompactEntry>, from: nat, upTo: nat, j: nat)
    requires from <= upTo <= |es| && j <= upTo - from
    ensures Raws(es)[..from + j] == Raws(es)[..from] + Raws(es[from..upTo])[..j]
  {
    var whole, front, rest := Raws(es)[..from + j], Raws(es)[..from], Raws(es[from..upTo])[..j];
    forall k | 0 <= k < from + j
      ensures whole[k] == (front + rest)[k]
    {
      if k >= from {
        assert rest[k - from] == es[from..upTo][k - from].raw == es[k].raw;
      }
    }
  }

  lemma RawsOfSlice(es: seq<CompactEntry>, from: nat, upTo: nat)
    requires from <= upTo <= |es|
    ensures Raws(es[from..upTo]) == Raws(es)[from..upTo]
  {
  }

  lemma SliceSteps(es: seq<CompactEntry>, from: nat, upTo: nat)
    requires DeltasExact(Raws(es)) && forall i :: 0 <= i < |es| && es[i].raw.ctype == NONHEAD ==> es[i].raw.lo <= i
    requires from <= upTo <= |es|
    ensures var slice := es[from..upTo];
            forall j :: 0 < j < |slice| && slice[j].raw.ctype == NONHEAD && slice[j - 1].raw.ctype == NONHEAD ==>
              slice[j].raw.lo == slice[j - 1].raw.lo + 1
  {
    hide DeltasExact;
    var slice := es[from..upTo];
    forall j | 0 < j < |slice| && slice[j].raw.ctype == NONHEAD && slice[j - 1].raw.ctype == NONHEAD
      ensures slice[j].raw.lo == slice[j - 1].raw.lo + 1
    {
      assert slice[j] == es[from + j] && slice[j - 1] == es[from + j - 1];
      DeltaStep(Raws(es), from + j);
    }
  }

  /** Any slice of an exact index is an exact pack. */
  lemma SliceIsExact(lobits: nat, es: seq<CompactEntry>, from: nat, upTo: nat)
    requires ExactEntries(lobits, es) && from <= upTo <= |es|
    ensures ExactPack(lobits, es[from..upTo])
  {
    hide DeltasExact, FieldsFit, Raws;
    RawsOfSlice(es, from, upTo);
    SliceDeltas(Raws(es), from, upTo);
    SliceSteps(es, from, upTo);
  }

  /** Any slice of a well-formed index is a well-formed pack. */
  lemma SliceIsPack(lobits: nat, es: seq<CompactEntry>, first: nat, from: nat, upTo: nat)
    requires WellFormedEntries(lobits, es, first) && from <= upTo <= |es|
    ensures WellFormedPack(lobits, es[from..upTo], first + HeadsIn(Raws(es)[..from]))
  {
    hide HeadsIn, ExactEntries, ExactPack, OneBlockEach;
    SliceIsExact(lobits, es, from, upTo);
    SliceBlocks(es, first, from, upTo);
  }

  /** Fields fit their slots: 14 bits in a 2B pack, 16 in a 4B pack. */
  predicate LobitsFit(geom: CompactGeom, lobits: nat) {
    12 <= lobits <= 14 && (geom.middle > 0 ==> lobits <= 12)
  }

  lemma SliceQuiet(es: seq<CompactEntry>, from: nat, upTo: nat, i: nat)
    requires from <= i < upTo <= |es| && NoMarkers(es, from, i)
    ensures NoMarkers(es[from..upTo], 0, i - from)
  {
    var slice := es[from..upTo];
    forall j | 0 <= j < i - from && slice[j].raw.ctype == NONHEAD
      ensures !HasCblkcnt(slice[j].raw.lo)
    {
      assert slice[j] == es[from + j];
    }
  }

  /** The pack that holds entry `i` of a region `[from, upTo)` of the index. */
  lemma RegionReads(dev: seq<byte>, at: nat, shape: Shape, lobits: nat, es: seq<CompactEntry>,
                    from: nat, upTo: nat, i: nat) returns (lo: nat, hi: nat)
    requires FormatShape(shape) && from <= i < upTo <= |es|
    requires ReadAt(dev, at, shape.BytesFor(upTo - from)) == Ok(RegionBytes(shape, lobits, es[from..upTo]))
    ensures lo == i - Intra(i - from, shape.vcnt) && from <= lo <= i < hi == Min(lo + shape.vcnt, upTo)
    ensures ReadPackAt(dev, at + PackIdx(i - from, shape.vcnt) * shape.packBytes, PackGeom(shape, lobits), i - lo, false)
            == ReadFromPack(PackGeom(shape, lobits), PackBytes(shape, lobits, es[lo..hi]), i - lo, false)
  {
    hide RegionBytes, PackBytes, ReadFromPack, Shape.BytesFor;
    var region := es[from..upTo];
    var p := PackIdx(i - from, shape.vcnt);
    var a, b := p * shape.vcnt, Min((p + 1) * shape.vcnt, |region|);
    lo, hi := from + a, from + b;
    RegionPack(shape, lobits, region, p);
    SliceSlice(dev, at, at + shape.BytesFor(upTo - from), p * shape.packBytes, (p + 1) * shape.packBytes);
    SliceSlice(es, from, upTo, a, b);
  }

  /** Where `LocateCompactPack` looks, region by region. */
  lemma LocatedIn(r: Regions, i: nat)
    ensures var mid, end := r.initial, r.initial + r.middle;
            var n1, n2 := COMPACT_4B.BytesFor(mid), COMPACT_2B.BytesFor(r.middle);
            && (i < mid ==>
                  LocateCompactPack(r, i) == PackLocation(r.start + PackIdx(i - 0, 2) * 8, Intra(i - 0, 2), COMPACT_4B))
            && (mid <= i < end ==>
                  LocateCompactPack(r, i) == PackLocation(r.start + n1 + PackIdx(i - mid, 16) * 32, Intra(i - mid, 16), COMPACT_2B))
            && (end <= i ==>
                  LocateCompactPack(r, i) == PackLocation(r.start + n1 + n2 + PackIdx(i - end, 2) * 8, Intra(i - end, 2), COMPACT_4B))
  {
    hide DivCeil, PackIdx, Intra;
  }

  /** A read inside one region is a read of one of its packs. */
  lemma ReadOfRegion(dev: seq<byte>, r: Regions, at: nat, shape: Shape, lobits: nat, es: seq<CompactEntry>,
                     from: nat, upTo: nat, i: nat) returns (lo: nat, hi: nat)
    requires FormatShape(shape) && from <= i < upTo <= |es|
    requires ReadAt(dev, at, shape.BytesFor(upTo - from)) == Ok(RegionBytes(shape, lobits, es[from..upTo]))
    requires LocateCompactPack(r, i)
             == PackLocation(at + PackIdx(i - from, shape.vcnt) * shape.packBytes, Intra(i - from, shape.vcnt), shape)
    ensures lo == i - LocateCompactPack(r, i).intra && from <= lo <= i < hi == Min(lo + shape.vcnt, upTo)
    ensures ReadLclusterCompact(dev, r, lobits, false, i)
            == ReadFromPack(PackGeom(shape, lobits), PackBytes(shape, lobits, es[lo..hi]), i - lo, false)
  {
    hide RegionBytes, ReadPackAt, ReadFromPack, PackBytes, PackIdx, Intra, LocateCompactPack, Shape.BytesFor;
    lo, hi := RegionReads(dev, at, shape, lobits, es, from, upTo, i);
  }

  /** The end of the region entry `i` of `n` lies in. */
  function RegionEnd(r: Regions, n: nat, i: nat): nat {
    if i < r.initial then r.initial else if i < r.initial + r.middle then r.initial + r.middle else n
  }

  /** Entries `lo` up to `hi` make up a whole pack around entry `i`, or what is left at the end of its region. */
  ghost predicate PackAround(r: Regions, n: nat, i: nat, lo: nat, hi: nat) {
    var loc := LocateCompactPack(r, i);
    lo == i - loc.intra && lo <= i < hi == Min(lo + loc.shape.vcnt, RegionEnd(r, n, i)) <= n
  }

  /** Any read of the index is a read of one emitted pack. */
  lemma ReadIsFromPack(dev: seq<byte>, r: Regions, geom: CompactGeom, lobits: nat, es: seq<CompactEntry>, i: nat)
    returns (lo: nat, hi: nat)
    requires geom.TotalIdx() == |es| && (geom.use2bMiddle <==> geom.middle > 0)
    requires r.initial == geom.initial && r.middle == geom.middle
    requires ReadAt(dev, r.start, geom.Bytes()) == Ok(IndexBytes(geom, lobits, es))
    requires i < |es|
    ensures PackAround(r, |es|, i, lo, hi)
    ensures var loc := LocateCompactPack(r, i);
            ReadLclusterCompact(dev, r, lobits, false, i)
            == ReadFromPack(PackGeom(loc.shape, lobits), PackBytes(loc.shape, lobits, es[lo..hi]), loc.intra, false)
  {
    hide RegionBytes, ReadLclusterCompact, ReadFromPack, PackBytes, DivCeil, PackIdx, Intra, LocateCompactPack, IndexBytes, Shape.BytesFor;
    var mid, end := geom.initial, geom.initial + geom.middle;
    var n1, n2 := COMPACT_4B.BytesFor(mid), COMPACT_2B.BytesFor(geom.middle);
    RegionsOnDevice(dev, r.start, geom, lobits, es);
    LocatedIn(r, i);
    if i < mid {
      lo, hi := ReadOfRegion(dev, r, r.start, COMPACT_4B, lobits, es, 0, mid, i);
    } else if i < end {
      lo, hi := ReadOfRegion(dev, r, r.start + n1, COMPACT_2B, lobits, es, mid, end, i);
    } else {
      lo, hi := ReadOfRegion(dev, r, r.start + n1 + n2, COMPACT_4B, lobits, es, end, |es|, i);
    }
  }

  /** No marker in front of entry `i` in its own pack. */
  ghost predicate Quiet(r: Regions, es: seq<CompactEntry>, i: nat) {
    NoMarkers(es, i - LocateCompactPack(r, i).intra, i)
  }

  /**
   Compact index round trip. Wherever the writer's index lies on the device, and whatever
   surrounds it, reading lcluster `i` gives back entry `i`: its type, its offset, its
   absolute block address or its distance.
   */
  lemma CompactIndexReadsBack(dev: seq<byte>, r: Regions, geom: CompactGeom, lobits: nat,
                              es: seq<CompactEntry>, first: nat, i: nat)
    requires geom.TotalIdx() == |es| && LobitsFit(geom, lobits)
    requires geom.use2bMiddle <==> geom.middle > 0
    requires r.initial == geom.initial && r.middle == geom.middle
    requires WellFormedEntries(lobits, es, first) && SmallDistances(lobits, es) && 0 < first
    requires ReadAt(dev, r.start, geom.Bytes()) == Ok(IndexBytes(geom, lobits, es))
    requires i < |es| && Quiet(r, es, i)
    ensures ReadLclusterCompact(dev, r, lobits, false, i) == Ok(Expected(es[i]))
  {
    hide WellFormedEntries, WellFormedPack, ReadLclusterCompact, ReadFromPack, IndexBytes, HeadsIn, NoMarkers, CompactGeom.Bytes;
    hide LocateCompactPack, Expected, PackBytes, SmallDistances;
    var loc := LocateCompactPack(r, i);
    var lo, hi := ReadIsFromPack(dev, r, geom, lobits, es, i);
    SliceIsPack(lobits, es, first, lo, hi);
    SliceSmall(lobits, es, lo, hi);
    SliceQuiet(es, lo, hi, i);
    ShapeFits(geom, r, lobits, i);
    PackReadsBack(PackGeom(loc.shape, lobits), es[lo..hi], first + HeadsIn(Raws(es)[..lo]), loc.intra);
    assert es[lo..hi][loc.intra] == es[i];
  }

  lemma SliceSmall(lobits: nat, es: seq<CompactEntry>, from: nat, upTo: nat)
    requires SmallDistances(lobits, es) && from <= upTo <= |es|
    ensures SmallDistances(lobits, es[from..upTo])
  {
    hide Pow2;
  }

  lemma ShapeFits(geom: CompactGeom, r: Regions, lobits: nat, i: nat)
    requires LobitsFit(geom, lobits) && r.initial == geom.initial && r.middle == geom.middle
    ensures lobits + 2 <= LocateCompactPack(r, i).shape.encodebits
  {
    hide DivCeil, PackIdx, Intra;
  }

  lemma RegionsOnDevice(dev: seq<byte>, at: nat, geom: CompactGeom, lobits: nat, es: seq<CompactEntry>)
    requires geom.TotalIdx() == |es| && (geom.use2bMiddle <==> geom.middle > 0)
    requires ReadAt(dev, at, geom.Bytes()) == Ok(IndexBytes(geom, lobits, es))
    ensures var mid, end := geom.initial, geom.initial + geom.middle;
            var n1, n2 := COMPACT_4B.BytesFor(mid), COMPACT_2B.BytesFor(geom.middle);
            var n3 := COMPACT_4B.BytesFor(|es| - end);
            && ReadAt(dev, at, n1) == Ok(RegionBytes(COMPACT_4B, lobits, es[0..mid]))
            && ReadAt(dev, at + n1, n2) == Ok(RegionBytes(COMPACT_2B, lobits, es[mid..end]))
            && ReadAt(dev, at + n1 + n2, n3) == Ok(RegionBytes(COMPACT_4B, lobits, es[end..|es|]))
  {
    hide RegionBytes, DivCeil;
    var mid, end := geom.initial, geom.initial + geom.middle;
    var a, b, c := es[..mid], es[mid..end], es[end..];
    assert es[0..mid] == a && es[end..|es|] == c;
    RegionLength(COMPACT_4B, lobits, a);
    RegionLength(COMPACT_2B, lobits, b);
    RegionLength(COMPACT_4B, lobits, c);
    BytesForStep(COMPACT_2B, 0);
    NoPacksLeft([], COMPACT_2B, lobits, es[mid..mid]);
    ThreeParts(dev, at, RegionBytes(COMPACT_4B, lobits, a), RegionBytes(COMPACT_2B, lobits, b),
               RegionBytes(COMPACT_4B, lobits, c));
  }

  lemma ThreeParts(dev: seq<byte>, at: nat, a: seq<byte>, b: seq<byte>, c: seq<byte>)
    requires ReadAt(dev, at, |a| + |b| + |c|) == Ok(a + b + c)
    ensures ReadAt(dev, at, |a|) == Ok(a)
    ensures ReadAt(dev, at + |a|, |b|) == Ok(b)
    ensures ReadAt(dev, at + |a| + |b|, |c|) == Ok(c)
  {
    var total := |a| + |b| + |c|;
    SliceSlice(dev, at, at + total, 0, |a|);
    SliceSlice(dev, at, at + total, |a|, |a| + |b|);
    SliceSlice(dev, at, at + total, |a| + |b|, total);
    MiddleOf(a, b, c);
    assert (a + b + c)[|a| + |b|..total] == c;
  }
}
