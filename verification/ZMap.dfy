/**
 The reader's view of a compressed inode's index: the map header, the geometry it
 implies, and one entry per lcluster in either on-disk format.
 */
module ZMapReader {
  import opened Basics
  import opened Bits
  import opened CompactPack
  import opened CompactIndex
  import opened CompactRoundTrip

  const ADVISE_COMPACTED_2B: nat := 0x01
  const ADVISE_BIG_PCLUSTER_1: nat := 0x02
  const ADVISE_BIG_PCLUSTER_2: nat := 0x04
  const ADVISE_INLINE_PCLUSTER: nat := 0x08
  const ADVISE_INTERLACED_PCLUSTER: nat := 0x10
  const ADVISE_FRAGMENT_PCLUSTER: nat := 0x20
  const FRAGMENT_INODE_BIT: nat := 0x80
  const LI_PARTIAL_REF: nat := 0x8000
  const LCLUSTER_INDEX_SIZE: nat := 8

  /** `flags & bit != 0` for a one-bit constant. */
  predicate HasBit(flags: nat, bit: nat)
    requires bit > 0
  {
    flags / bit % 2 == 1
  }

  datatype ZMap = ZMap(
    size: nat, blkszbits: nat,
    unionWord: nat, advise: nat, algorithmType: nat, clusterbits: nat,
    legacy: bool, indexStart: nat, regions: Regions)
  {
    function ZLclusterbits(): nat {
      blkszbits + clusterbits % 16
    }
    function LclusterSize(): (s: nat)
      ensures s > 0
    {
      Pow2(ZLclusterbits())
    }
    function NLclusters(): nat {
      DivCeil(size, LclusterSize())
    }
    /** `lobits` of every compact pack of this inode. */
    function Lobits(): nat {
      Max(ZLclusterbits(), 12)
    }
    predicate BigPcluster() {
      HasBit(advise, ADVISE_BIG_PCLUSTER_1) || HasBit(advise, ADVISE_BIG_PCLUSTER_2)
    }
    predicate HasInlineTail() {
      HasBit(advise, ADVISE_INLINE_PCLUSTER)
    }
    predicate Interlaced() {
      HasBit(advise, ADVISE_INTERLACED_PCLUSTER)
    }
    predicate HasFullFragment() {
      HasBit(clusterbits, FRAGMENT_INODE_BIT)
    }
    predicate HasFragment() {
      HasBit(advise, ADVISE_FRAGMENT_PCLUSTER) || HasFullFragment()
    }
    /** `index_array_bytes`. */
    function IndexBytesLen(): nat {
      if legacy then NLclusters() * LCLUSTER_INDEX_SIZE
      else
        var tail := SatSub(NLclusters(), regions.initial + regions.middle);
        DivCeil(regions.initial, 2) * 8 + DivCeil(regions.middle, 16) * 32 + DivCeil(tail, 2) * 8
    }
    /** `tail_inline_offset_and_size`. */
    function TailInline(): Option<(nat, nat)> {
      if !HasInlineTail() || HasFragment() then None
      else Some((indexStart + IndexBytesLen(), unionWord / 0x1_0000 % 0x1_0000))
    }
  }

  /** `ZMap::open`: parse the header at `bodyEnd` and derive the geometry. */
  function OpenZMap(dev: seq<byte>, bodyEnd: nat, size: nat, blkszbits: nat, legacy: bool): Result<ZMap> {
    var h :- ReadAt(dev, bodyEnd, 8);
    var advise, clusterbits := LE(h[4..6]), h[7];
    var ebase := AlignUp(bodyEnd, 8) + 8;
    var totalidx := DivCeil(size, Pow2(blkszbits + clusterbits % 16));
    if totalidx > U32_MAX then Err
    else
      Ok(ZMap(size, blkszbits, LE(h[..4]), advise, h[6], clusterbits, legacy,
              if legacy then ebase + 8 else ebase,
              if legacy then Regions(ebase + 8, 0, 0)
              else OpenRegions(ebase, totalidx, HasBit(advise, ADVISE_COMPACTED_2B))))
  }

  /** `read_lcluster_legacy`. */
  function ReadLclusterLegacy(dev: seq<byte>, indexStart: nat, bigPcluster: bool, i: nat): Result<LEntry> {
    var b :- ReadAt(dev, indexStart + i * LCLUSTER_INDEX_SIZE, 8);
    var advise, clusterofs, u := LE(b[..2]), LE(b[2..4]), LE(b[4..]);
    var ctype := advise % 4;
    Ok(LEntry(ctype, advise, clusterofs, u,
              if bigPcluster && ctype == NONHEAD && HasCblkcnt(u) then Some(u % CBLKCNT) else None))
  }

  /** `read_lcluster`. */
  function ReadLcluster(dev: seq<byte>, z: ZMap, i: nat): Result<LEntry> {
    if i >= z.NLclusters() then Err
    else if z.legacy then ReadLclusterLegacy(dev, z.indexStart, z.BigPcluster(), i)
    else ReadLclusterCompact(dev, z.regions, z.Lobits(), z.BigPcluster(), i)
  }

  /** Every entry of the index, each as `read_lcluster` reads it. */
  function ReadIndex(dev: seq<byte>, z: ZMap): (idx: seq<Result<LEntry>>)
    ensures |idx| == z.NLclusters()
    ensures forall i :: 0 <= i < |idx| ==> idx[i] == ReadLcluster(dev, z, i)
  {
    seq(z.NLclusters(), i requires 0 <= i => ReadLcluster(dev, z, i))
  }

  // ----- What a compact entry can say

  /**
   A compact entry's `clusterofs` is always inside its lcluster once an lcluster is at
   least 4 KiB: the field is exactly as wide as the offset.
   */
  lemma CompactClusterofsInside(dev: seq<byte>, z: ZMap, i: nat)
    requires !z.legacy && 12 <= z.ZLclusterbits()
    requires ReadLcluster(dev, z, i).Ok?
    ensures ReadLcluster(dev, z, i).value.clusterofs < z.LclusterSize()
  {
    hide DecodePackedEntry, CountSimple, CountBigPcluster, NonheadDelta0, LocateCompactPack, Pow2, HasBit;
    var loc := LocateCompactPack(z.regions, i);
    var pack := ReadAt(dev, loc.offset, loc.shape.packBytes);
    assert pack.Ok?;
    var bits := pack.value[..loc.shape.BitstreamLen()];
    LoFits(PackGeom(loc.shape, z.Lobits()), bits, loc.intra);
  }

  lemma LoFits(g: PackGeom, bits: seq<byte>, intra: nat)
    requires DecodePackedEntry(g, bits, intra).Ok?
    ensures DecodePackedEntry(g, bits, intra).value.lo < Pow2(g.lobits)
  {
    hide Low, Shr, Pow2, LE, Window;
    LowBound(Shr(LE(Window(bits, g.shape.encodebits * intra / 8)), g.shape.encodebits * intra % 8), g.lobits);
  }
}
