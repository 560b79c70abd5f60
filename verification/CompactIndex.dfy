/**
 The compact index of one inode: three regions of packs (4B, 2B, 4B). The writer and
 the reader each derive the geometry on their own; here they are shown to agree, and
 every entry the writer emits is shown to be read back.
 */
module CompactIndex {
  import opened Basics
  import opened Bits
  import opened CompactPack

  // ----- Writer geometry

  datatype CompactGeom = CompactGeom(initial: nat, middle: nat, tail: nat, use2bMiddle: bool) {
    function Bytes(): nat {
      DivCeil(initial, 2) * 8 + DivCeil(middle, 16) * 32 + DivCeil(tail, 2) * 8
    }
    function TotalIdx(): nat {
      initial + middle + tail
    }
  }

  /** `compute_compact_geom`. */
  function ComputeCompactGeom(ebase: nat, totalidx: nat, want2bMiddle: bool): CompactGeom {
    if totalidx == 0 then CompactGeom(0, 0, 0, false)
    else
      var pad := (32 - ebase % 32) / 4 % 8;
      var initial := Min(pad, totalidx);
      if want2bMiddle && initial < totalidx then
        var remaining := totalidx - initial;
        var middle := remaining - remaining % 16;
        CompactGeom(initial, middle, remaining - middle, middle > 0)
      else
        CompactGeom(initial, 0, totalidx - initial, false)
  }

  // ----- Reader geometry

  datatype Regions = Regions(start: nat, initial: nat, middle: nat)

  /** `compact_alignment_pad`: as many 4B entries as reach the next 2B pack boundary. */
  function CompactAlignmentPad(ebase: nat): nat {
    var align := COMPACT_2B.packBytes;
    var perLcluster := COMPACT_4B.packBytes / COMPACT_4B.vcnt;
    (align - ebase % align) / perLcluster % (align / perLcluster)
  }

  /** The geometry part of `ZMap::open`. */
  function OpenRegions(ebase: nat, totalidx: nat, advise2b: bool): Regions {
    var initial := Min(CompactAlignmentPad(ebase), totalidx);
    var middle := if advise2b && initial < totalidx
                  then var remaining := totalidx - initial; remaining - remaining % COMPACT_2B.vcnt
                  else 0;
    Regions(ebase, initial, middle)
  }

  /** `index_array_bytes`, compact arm. */
  function IndexArrayBytes(r: Regions, totalidx: nat): nat
    requires r.initial + r.middle <= totalidx
  {
    DivCeil(r.initial, 2) * 8 + DivCeil(r.middle, 16) * 32
    + DivCeil(totalidx - r.initial - r.middle, 2) * 8
  }

  datatype PackLocation = PackLocation(offset: nat, intra: nat, shape: Shape)

  function PackIdx(i: nat, vcnt: nat): nat
    requires vcnt > 0
  {
    i / vcnt
  }

  function Intra(i: nat, vcnt: nat): nat
    requires vcnt > 0
  {
    i % vcnt
  }

  /** `locate_compact_pack`. */
  function LocateCompactPack(r: Regions, i: nat): (loc: PackLocation)
    ensures FormatShape(loc.shape) && loc.intra <= i
  {
    if i < r.initial then
      PackLocation(r.start + PackIdx(i, 2) * 8, Intra(i, 2), COMPACT_4B)
    else
      var afterInitial := i - r.initial;
      var initialBytes := COMPACT_4B.BytesFor(r.initial);
      if afterInitial < r.middle then
        PackLocation(r.start + initialBytes + PackIdx(afterInitial, 16) * 32, Intra(afterInitial, 16), COMPACT_2B)
      else
        var afterMiddle := afterInitial - r.middle;
        var middleBytes := COMPACT_2B.BytesFor(r.middle);
        PackLocation(r.start + initialBytes + middleBytes + PackIdx(afterMiddle, 2) * 8,
                     Intra(afterMiddle, 2), COMPACT_4B)
  }

  // ----- The two geometries are one

  /**
   Writer and reader cut the index into the same three regions and give it the same
   length, when the reader is told exactly what the writer says: that 2B packs are used.
   */
  lemma GeometriesAgree(ebase: nat, totalidx: nat)
    ensures var w := ComputeCompactGeom(ebase, totalidx, true);
            var r := OpenRegions(ebase, totalidx, w.use2bMiddle);
            && r.initial == w.initial && r.middle == w.middle
            && w.TotalIdx() == totalidx
            && IndexArrayBytes(r, totalidx) == w.Bytes()
  {
  }

  /**
   What the alignment pad buys: with an 8-aligned base the first region holds whole packs
   whenever anything follows it, and 2B packs start on 32-byte boundaries.
   */
  lemma RegionsAligned(ebase: nat, totalidx: nat, advise2b: bool)
    requires ebase % 8 == 0
    ensures var r := OpenRegions(ebase, totalidx, advise2b);
            && GoodRegions(r, totalidx)
            && (r.middle > 0 ==> (ebase + COMPACT_4B.BytesFor(r.initial)) % 32 == 0)
  {
    var q, m := ebase / 32, ebase % 32;
    assert m == 0 || m == 8 || m == 16 || m == 24;
    var pad := CompactAlignmentPad(ebase);
    assert pad % 2 == 0 && if m == 0 then pad == 0 else m + 4 * pad == 32;
  }

  /** Regions cut the way `ZMap::open` cuts them for `n` lclusters. */
  ghost predicate GoodRegions(r: Regions, n: nat) {
    && r.initial + r.middle <= n
    && (r.initial < n ==> r.initial % 2 == 0)
    && r.middle % 16 == 0
  }

  /** The pack that holds entry `i` of `n` is one of the whole packs they take. */
  lemma PackOf(i: nat, n: nat, vcnt: nat)
    requires vcnt == 2 || vcnt == 16
    ensures i < n ==> PackIdx(i, vcnt) + 1 <= DivCeil(n, vcnt)
    ensures Intra(i, vcnt) < vcnt
    ensures n % vcnt == 0 ==> DivCeil(n, vcnt) * vcnt == n
  {
  }

  /** Two entries of one region share a pack, in order, or lie in two packs, in order. */
  lemma PacksOrdered(i: nat, j: nat, vcnt: nat)
    requires (vcnt == 2 || vcnt == 16) && i < j
    ensures || PackIdx(i, vcnt) + 1 <= PackIdx(j, vcnt)
            || (PackIdx(i, vcnt) == PackIdx(j, vcnt) && Intra(i, vcnt) < Intra(j, vcnt))
  {
  }

  /** Pack locations are injective: no two lclusters share a pack slot. */
  lemma LocationsInjective(r: Regions, n: nat, i: nat, j: nat)
    requires GoodRegions(r, n) && i < j < n
    ensures var a, b := LocateCompactPack(r, i), LocateCompactPack(r, j);
            || (a.offset == b.offset && a.shape == b.shape && a.intra < b.intra)
            || a.offset + a.shape.packBytes <= b.offset
  {
    hide DivCeil, PackIdx, Intra;
    var mid, end := r.initial, r.initial + r.middle;
    PackOf(i, mid, 2);
    if j < mid {
      PacksOrdered(i, j, 2);
    } else if i >= mid {
      PackOf(i - mid, r.middle, 16);
      if j < end {
        PacksOrdered(i - mid, j - mid, 16);
      } else if i >= end {
        PacksOrdered(i - end, j - end, 2);
      }
    }
  }

  /** Every pack lies inside the index array. */
  lemma LocationInside(r: Regions, n: nat, i: nat)
    requires GoodRegions(r, n) && i < n
    ensures var a := LocateCompactPack(r, i);
            && r.start <= a.offset
            && a.offset + a.shape.packBytes <= r.start + IndexArrayBytes(r, n)
            && a.intra < a.shape.vcnt
  {
    hide DivCeil, PackIdx, Intra;
    var mid, end := r.initial, r.initial + r.middle;
    PackOf(i, mid, 2);
    if i >= mid {
      PackOf(i - mid, r.middle, 16);
      if i >= end {
        PackOf(i - end, n - end, 2);
      }
    }
  }

  /** The entry that opens pack `p`. */
  lemma OpensPack(p: nat, n: nat, vcnt: nat)
    requires (vcnt == 2 || vcnt == 16) && p < DivCeil(n, vcnt)
    ensures p * vcnt < n && PackIdx(p * vcnt, vcnt) == p
  {
  }

  /** And every byte of the index array lies in the pack of some lcluster. */
  lemma LocationsCover(r: Regions, n: nat, k: nat) returns (i: nat)
    requires GoodRegions(r, n) && k < IndexArrayBytes(r, n)
    ensures i < n
    ensures var a := LocateCompactPack(r, i);
            a.offset <= r.start + k < a.offset + a.shape.packBytes
  {
    hide DivCeil, PackIdx;
    var mid, end := r.initial, r.initial + r.middle;
    var initialBytes, middleBytes := DivCeil(mid, 2) * 8, DivCeil(r.middle, 16) * 32;
    if k < initialBytes {
      OpensPack(k / 8, mid, 2);
      i := k / 8 * 2;
    } else if k < initialBytes + middleBytes {
      var p := (k - initialBytes) / 32;
      OpensPack(p, r.middle, 16);
      i := mid + p * 16;
    } else {
      var p := (k - initialBytes - middleBytes) / 8;
      OpensPack(p, n - end, 2);
      i := end + p * 2;
    }
  }

  // ----- Writer

  /** One per-lcluster entry as the writer holds it. */
  datatype CompactEntry = CompactEntry(raw: Raw, blkaddr: nat)

  function Raws(es: seq<CompactEntry>): (rs: seq<Raw>)
    ensures |rs| == |es| && forall i :: 0 <= i < |es| ==> rs[i] == es[i].raw
  {
    seq(|es|, i requires 0 <= i < |es| => es[i].raw)
  }

  /** The block address one before the first HEAD or PLAIN entry's, or 0 without one. */
  function BaseOf(es: seq<CompactEntry>): nat {
    if es == [] then 0
    else if es[0].raw.ctype != NONHEAD then SatSub(es[0].blkaddr, 1)
    else BaseOf(es[1..])
  }

  function PackBytes(shape: Shape, lobits: nat, es: seq<CompactEntry>): (s: seq<byte>)
    ensures |s| == shape.BitstreamLen() + 4
  {
    ToLE(Packed(shape.encodebits, lobits, Raws(es)), shape.BitstreamLen()) + ToLE(BaseOf(es), 4)
  }

  function RegionBytes(shape: Shape, lobits: nat, es: seq<CompactEntry>): seq<byte>
    requires shape.vcnt > 0
    decreases |es|
  {
    if es == [] then []
    else
      var take := Min(|es|, shape.vcnt);
      PackBytes(shape, lobits, es[..take]) + RegionBytes(shape, lobits, es[take..])
  }

  function IndexBytes(geom: CompactGeom, lobits: nat, es: seq<CompactEntry>): seq<byte>
    requires geom.TotalIdx() == |es|
  {
    var afterMiddle := geom.initial + geom.middle;
    RegionBytes(COMPACT_4B, lobits, es[..geom.initial])
    + (if geom.use2bMiddle then RegionBytes(COMPACT_2B, lobits, es[geom.initial..afterMiddle]) else [])
    + RegionBytes(COMPACT_4B, lobits, es[afterMiddle..])
  }

  method FindBase(es: seq<CompactEntry>) returns (base: nat)
    ensures base == BaseOf(es)
  {
    var i := 0;
    while i < |es|
      invariant 0 <= i <= |es| && BaseOf(es[i..]) == BaseOf(es)
    {
      if es[i].raw.ctype != NONHEAD {
        return SatSub(es[i].blkaddr, 1);
      }
      assert es[i..][1..] == es[i + 1..];
      i := i + 1;
    }
    return 0;
  }

  lemma MiddleOf(pre: seq<byte>, mid: seq<byte>, post: seq<byte>)
    ensures (pre + mid + post)[..|pre|] == pre
    ensures (pre + mid + post)[|pre|..|pre| + |mid|] == mid
    ensures (pre + mid + post)[|pre| + |mid|..] == post
  {
  }

  /** The entries of one pack, ORed one after another into a zeroed bitstream. */
  method WriteEntries(out: array<byte>, at: nat, len: nat, encodebits: nat, lobits: nat, es: seq<CompactEntry>)
    requires lobits < 32 && at + len <= out.Length
    requires out[at..at + len] == Zeros(len)
    modifies out
    ensures out[..] == old(out[..at]) + ToLE(Packed(encodebits, lobits, Raws(es)), len) + old(out[at + len..])
  {
    hide Packed, LE, Shr, Shl, Or, Low, EntryValue, ToLE;
    ghost var pre, post, rs := out[..at], out[at + len..], Raws(es);
    EmptyStream(encodebits, lobits, rs[..0], len);
    for i := 0 to |es|
      invariant out[..] == pre + ToLE(Packed(encodebits, lobits, rs[..i]), len) + post
    {
      MiddleOf(pre, ToLE(Packed(encodebits, lobits, rs[..i]), len), post);
      PackWriteEntry(out, at, len, encodebits * i, lobits, es[i].raw);
      PackedStep(encodebits, lobits, rs[..i], es[i].raw, len);
      assert rs[..i] + [es[i].raw] == rs[..i + 1];
    }
    assert rs[..|es|] == rs;
  }

  lemma ZerosTail(n: nat, k: nat)
    requires k <= n
    ensures Zeros(n)[..k] == Zeros(k) && Zeros(n)[k..] == Zeros(n - k)
  {
  }

  /** `emit_pack`: one pack over zeroed bytes of `out`, in place. */
  method EmitPack(out: array<byte>, at: nat, shape: Shape, lobits: nat, es: seq<CompactEntry>)
    requires FormatShape(shape) && lobits < 32
    requires at + shape.packBytes <= out.Length
    requires out[at..at + shape.packBytes] == Zeros(shape.packBytes)
    modifies out
    ensures out[..] == old(out[..at]) + PackBytes(shape, lobits, es) + old(out[at + shape.packBytes..])
  {
    hide Packed, BaseOf, ToLE, Zeros;
    var bitstreamLen := shape.BitstreamLen();
    var base := FindBase(es);
    ghost var pre, post := out[..at], out[at + bitstreamLen..];
    ghost var stream := ToLE(Packed(shape.encodebits, lobits, Raws(es)), bitstreamLen);
    SliceSlice(out[..], at, at + shape.packBytes, 0, bitstreamLen);
    ZerosTail(shape.packBytes, bitstreamLen);
    assert out[at..at + bitstreamLen] == Zeros(shape.packBytes)[0..bitstreamLen];
    WriteEntries(out, at, bitstreamLen, shape.encodebits, lobits, es);
    MiddleOf(pre, stream, post);
    assert out[..at + bitstreamLen] == pre + stream;
    CopyFromSlice(out, at + bitstreamLen, ToLE(base, 4));
    assert out[..] == (pre + stream) + ToLE(base, 4) + post[4..];
  }

  lemma EmptyStream(encodebits: nat, lobits: nat, none: seq<Raw>, len: nat)
    requires none == []
    ensures ToLE(Packed(encodebits, lobits, none), len) == Zeros(len)
  {
    if len > 0 { EmptyStream(encodebits, lobits, none, len - 1); }
  }

  /** A region takes one pack more than the region without its first pack. */
  lemma BytesForStep(shape: Shape, n: nat)
    requires FormatShape(shape)
    ensures shape.BytesFor(0) == 0
    ensures n > 0 ==> shape.BytesFor(n) == shape.packBytes + shape.BytesFor(n - Min(n, shape.vcnt))
  {
  }

  lemma RegionStep(before: seq<byte>, shape: Shape, lobits: nat, es: seq<CompactEntry>, from: nat)
    requires FormatShape(shape) && from < |es|
    ensures var upTo := from + Min(|es| - from, shape.vcnt);
            (before + PackBytes(shape, lobits, es[from..upTo])) + RegionBytes(shape, lobits, es[upTo..])
            == before + RegionBytes(shape, lobits, es[from..])
  {
    hide PackBytes;
    var take := Min(|es| - from, shape.vcnt);
    assert es[from..][..take] == es[from..from + take];
    assert es[from..][take..] == es[from + take..];
  }

  lemma NoPacksLeft(before: seq<byte>, shape: Shape, lobits: nat, none: seq<CompactEntry>)
    requires FormatShape(shape) && none == []
    ensures before + RegionBytes(shape, lobits, none) == before
  {
  }

  /** One more pack behind what is already written; the rest stays zero. */
  method EmitNext(out: array<byte>, at: nat, shape: Shape, lobits: nat, es: seq<CompactEntry>)
    requires FormatShape(shape) && lobits < 32
    requires at + shape.packBytes <= out.Length && out[at..] == Zeros(out.Length - at)
    modifies out
    ensures out[..at + shape.packBytes] == old(out[..at]) + PackBytes(shape, lobits, es)
    ensures out[at + shape.packBytes..] == Zeros(out.Length - at - shape.packBytes)
  {
    hide PackBytes, Zeros;
    ghost var before, n := out[..at], shape.packBytes;
    ZerosTail(out.Length - at, n);
    assert out[at..at + n] == out[at..][..n];
    assert out[at + n..] == out[at..][n..];
    EmitPack(out, at, shape, lobits, es);
    MiddleOf(before, PackBytes(shape, lobits, es), Zeros(out.Length - at - n));
    assert out[..at + n] == before + PackBytes(shape, lobits, es);
  }

  /** The loop over one region's packs. */
  method EmitRegion(out: array<byte>, at: nat, shape: Shape, lobits: nat, es: seq<CompactEntry>)
    returns (byteCursor: nat)
    requires FormatShape(shape) && lobits < 32
    requires at + shape.BytesFor(|es|) <= out.Length
    requires out[at..] == Zeros(out.Length - at)
    modifies out
    ensures byteCursor == at + shape.BytesFor(|es|)
    ensures out[..byteCursor] == old(out[..at]) + RegionBytes(shape, lobits, es)
    ensures out[byteCursor..] == Zeros(out.Length - byteCursor)
  {
    hide PackBytes, RegionBytes, DivCeil, Zeros, Shape.BytesFor;
    byteCursor := at;
    var entryCursor := 0;
    var remaining := |es|;
    BytesForStep(shape, |es|);
    ghost var pre := out[..at];
    while remaining > 0
      invariant 0 <= remaining && entryCursor + remaining == |es|
      invariant byteCursor + shape.BytesFor(remaining) == at + shape.BytesFor(|es|)
      invariant out[..byteCursor] + RegionBytes(shape, lobits, es[entryCursor..])
                == pre + RegionBytes(shape, lobits, es)
      invariant out[byteCursor..] == Zeros(out.Length - byteCursor)
    {
      BytesForStep(shape, remaining);
      var take := Min(remaining, shape.vcnt);
      RegionStep(out[..byteCursor], shape, lobits, es, entryCursor);
      EmitNext(out, byteCursor, shape, lobits, es[entryCursor..entryCursor + take]);
      byteCursor := byteCursor + shape.packBytes;
      entryCursor := entryCursor + take;
      remaining := remaining - take;
    }
    BytesForStep(shape, 0);
    NoPacksLeft(out[..byteCursor], shape, lobits, es[entryCursor..]);
  }

  /** `encode_compact2b_index`. */
  method EncodeCompactIndex(geom: CompactGeom, es: seq<CompactEntry>, lobits: nat) returns (out: array<byte>)
    requires geom.TotalIdx() == |es| && lobits < 32
    requires geom.use2bMiddle <==> geom.middle > 0
    ensures fresh(out) && out[..] == IndexBytes(geom, lobits, es)
  {
    hide RegionBytes, DivCeil, Zeros, Shape.BytesFor, CompactGeom.Bytes, IndexBytes;
    var afterMiddle := geom.initial + geom.middle;
    GeomBytes(geom);
    out := new byte[geom.Bytes()](_ => 0);
    assert out[0..] == Zeros(out.Length);
    var byteCursor := EmitRegion(out, 0, COMPACT_4B, lobits, es[..geom.initial]);
    ghost var first := RegionBytes(COMPACT_4B, lobits, es[..geom.initial]);
    ghost var second := [];
    if geom.use2bMiddle {
      second := RegionBytes(COMPACT_2B, lobits, es[geom.initial..afterMiddle]);
      byteCursor := EmitRegion(out, byteCursor, COMPACT_2B, lobits, es[geom.initial..afterMiddle]);
    }
    assert out[..byteCursor] == first + second;
    byteCursor := EmitRegion(out, byteCursor, COMPACT_4B, lobits, es[afterMiddle..]);
    assert out[..] == out[..byteCursor];
    IndexIs(geom, lobits, es, first, second);
  }

  lemma GeomBytes(geom: CompactGeom)
    ensures geom.Bytes() == COMPACT_4B.BytesFor(geom.initial) + COMPACT_2B.BytesFor(geom.middle) + COMPACT_4B.BytesFor(geom.tail)
    ensures geom.middle == 0 ==> COMPACT_2B.BytesFor(geom.middle) == 0
  {
  }

  lemma IndexIs(geom: CompactGeom, lobits: nat, es: seq<CompactEntry>, first: seq<byte>, second: seq<byte>)
    requires geom.TotalIdx() == |es| && first == RegionBytes(COMPACT_4B, lobits, es[..geom.initial])
    requires second == if geom.use2bMiddle then RegionBytes(COMPACT_2B, lobits, es[geom.initial..geom.initial + geom.middle]) else []
    ensures IndexBytes(geom, lobits, es) == first + second + RegionBytes(COMPACT_4B, lobits, es[geom.initial + geom.middle..])
  {
    hide RegionBytes;
  }
}
