/**
 The content of a compressed file: its extents, one behind the other. Blocks, the fill
 loop and the place where a read starts leave no trace in it.
 */
module CompressedContent {
  import opened Basics
  import opened CompactPack
  import opened ExtentMap
  import opened FileContent
  import opened FragmentWalk
  import opened Images
  import opened ReadPath
  import opened ZMapReader

  /** Where the bytes that live in the packed inode begin, or the end of the file. */
  function FragmentStart(img: Image, z: ZMap): nat {
    match FragmentRange(z, ReadIndex(img.dev, z))
    case Ok(Some((_, start, _))) => start
    case _ => z.size
  }

  /** `n` bytes of the fragment, from offset `off` of the file on. */
  function FragmentBytes(img: Image, z: ZMap, off: nat, n: nat, level: nat): Result<seq<byte>> {
    match FragmentRange(z, ReadIndex(img.dev, z))
    case Ok(Some((fragmentoff, start, _))) =>
      if off < start || level == 0 then Err
      else
        var packed :- img.Packed();
        ReadFile(img, packed, fragmentoff + (off - start), n, level - 1)
    case _ => Err
  }

  /** The extents in front of the fragment cut their part of the file up. */
  ghost predicate Partitioned(img: Image, z: ZMap) {
    && FragmentRange(z, ReadIndex(img.dev, z)).Ok? && FragmentStart(img, z) <= z.size
    && forall off: nat :: off < FragmentStart(img, z) ==> InPartition(img, z, off)
  }

  ghost predicate InPartition(img: Image, z: ZMap, off: nat) {
    var x := ExtentOf(img, z, off);
    && x.Ok? && x.value.start <= off < x.value.end <= FragmentStart(img, z) && x.value.blockCount >= 1
    && forall other: nat :: x.value.start <= other < x.value.end ==> ExtentOf(img, z, other) == x
  }

  /** Every head of the index has the next one in reach of the bounded scan. */
  ghost predicate Reached(img: Image, z: ZMap) {
    AllInReach(ReadIndex(img.dev, z), z.LclusterSize(), z.size)
  }

  lemma PartOfPartition(img: Image, z: ZMap, off: nat)
    requires WfIndex(ReadIndex(img.dev, z), z.LclusterSize()) && Reached(img, z) && off < z.size
    ensures var x := ExtentOf(img, z, off);
            && x.Ok? && x.value.start <= off < x.value.end <= z.size && x.value.blockCount >= 1
            && forall other: nat :: x.value.start <= other < x.value.end ==> ExtentOf(img, z, other) == x
  {
    hide ReadIndex, ExtentAt, WfIndex, AllInReach, DivCeil, ZMap.LclusterSize;
    var idx, lcs := ReadIndex(img.dev, z), z.LclusterSize();
    ReachedExtentsPart(idx, lcs, z.size, off, off);
    ExtentHasBlocks(idx, lcs, z.size, off);
    forall other: nat | ExtentOf(img, z, off).value.start <= other < ExtentOf(img, z, off).value.end
      ensures ExtentOf(img, z, other) == ExtentOf(img, z, off)
    {
      ReachedExtentsPart(idx, lcs, z.size, off, other);
    }
  }

  /** A head out of reach spoils the partition. */
  lemma FarHeadSpoils(img: Image, z: ZMap, h: nat)
    requires WfIndex(ReadIndex(img.dev, z), z.LclusterSize()) && IsHeadAt(ReadIndex(img.dev, z), h)
    requires !InReach(ReadIndex(img.dev, z), z.LclusterSize(), z.size, h)
    ensures var off := StartOf(ReadIndex(img.dev, z), z.LclusterSize(), h);
            !InPartition(img, z, off) && off < z.size
  {
    hide ReadIndex, ExtentAt, WfIndex, InReach, DivCeil, ZMap.LclusterSize, StartOf, NextHead, FragmentStart;
    var idx, lcs := ReadIndex(img.dev, z), z.LclusterSize();
    FarHeadOverlaps(idx, lcs, z.size, h);
    var other := StartOf(idx, lcs, NextHead(idx, h + 1));
    assert ExtentOf(img, z, other) != ExtentOf(img, z, StartOf(idx, lcs, h));
  }

  /** Without a fragment a well-formed index partitions the whole file exactly when no head is out of reach. */
  lemma WellFormedIsPartitioned(img: Image, z: ZMap)
    requires WfIndex(ReadIndex(img.dev, z), z.LclusterSize()) && !z.HasFragment()
    ensures Partitioned(img, z) <==> Reached(img, z)
    ensures FragmentStart(img, z) == z.size
  {
    hide ReadIndex, ExtentOf, WfIndex, InPartition, InReach, ZMap.LclusterSize, ZMap.HasFragment;
    NoFragmentRange(z, ReadIndex(img.dev, z));
    if Reached(img, z) {
      forall off: nat | off < z.size
        ensures InPartition(img, z, off)
      {
        WholePart(img, z, off);
      }
    } else {
      var idx, lcs := ReadIndex(img.dev, z), z.LclusterSize();
      var h :| 0 <= h < |idx| && IsHeadAt(idx, h) && !InReach(idx, lcs, z.size, h);
      FarHeadSpoils(img, z, h);
    }
  }

  lemma WholePart(img: Image, z: ZMap, off: nat)
    requires WfIndex(ReadIndex(img.dev, z), z.LclusterSize()) && Reached(img, z) && off < z.size
    requires FragmentStart(img, z) == z.size
    ensures InPartition(img, z, off)
  {
    hide ReadIndex, ExtentOf, WfIndex, Reached, ZMap.LclusterSize, FragmentStart;
    PartOfPartition(img, z, off);
  }

  lemma NoFragmentRange(z: ZMap, idx: Index)
    requires !z.HasFragment() && |idx| == z.NLclusters()
    ensures FragmentRange(z, idx) == Ok(None)
  {
  }

  /** With a fragment in the last extent it partitions what is in front of it, under the same condition. */
  lemma FragmentIsPartitioned(img: Image, z: ZMap)
    requires WfIndex(ReadIndex(img.dev, z), z.LclusterSize()) && z.HasFragment() && !z.HasFullFragment() && z.size > 0
    ensures Partitioned(img, z) <==> Reached(img, z)
    ensures FragmentStart(img, z) < z.size
  {
    hide ReadIndex, ExtentOf, WfIndex, WfShape, InReach, InPartition, ZMap.LclusterSize, ZMap.HasFragment, ZMap.HasFullFragment, FragmentRange, Owns, StartOf, TrueEnd, DivCeil;
    var idx, lcs := ReadIndex(img.dev, z), z.LclusterSize();
    ShapeOfWf(idx, lcs);
    var last := FragmentIsLastExtent(z, idx);
    var start := FragmentStart(img, z);
    if Reached(img, z) {
      forall off: nat | off < start
        ensures InPartition(img, z, off)
      {
        BeforeFragment(img, z, last, off);
      }
    } else {
      var h :| 0 <= h < |idx| && IsHeadAt(idx, h) && !InReach(idx, lcs, z.size, h);
      FarHeadSpoils(img, z, h);
      FarHeadIsEarlier(idx, lcs, z.size, h, last);
    }
  }

  /** A head out of reach has another one behind it, so the last owner comes later. */
  lemma FarHeadIsEarlier(idx: Index, lcs: nat, size: nat, h: nat, last: nat)
    requires lcs > 0 && WfIndex(idx, lcs) && |idx| == DivCeil(size, lcs) && size > 0
    requires IsHeadAt(idx, h) && !InReach(idx, lcs, size, h) && Owns(idx, lcs, last, size - 1)
    ensures StartOf(idx, lcs, h) < StartOf(idx, lcs, last)
  {
    hide WfIndex, BoundedIndex, StartOf, DivCeil, ExtentAt;
    WfIsScannable(idx, lcs);
    FarHeadOverlaps(idx, lcs, size, h);
    var nh := NextHead(idx, h + 1);
    assert nh <= last;
    StartsOrdered(idx, lcs, h, last);
  }

  lemma BeforeFragment(img: Image, z: ZMap, h: nat, off: nat)
    requires WfIndex(ReadIndex(img.dev, z), z.LclusterSize()) && Reached(img, z)
    requires IsHeadAt(ReadIndex(img.dev, z), h) && StartOf(ReadIndex(img.dev, z), z.LclusterSize(), h) <= z.size
    requires off < StartOf(ReadIndex(img.dev, z), z.LclusterSize(), h) == FragmentStart(img, z)
    ensures InPartition(img, z, off)
  {
    hide ReadIndex, WfIndex, AllInReach, InReach, ZMap.LclusterSize, Owns, StartOf, TrueEnd, DivCeil, ExtentAt, ExtentOfHead, FragmentStart;
    var idx, lcs := ReadIndex(img.dev, z), z.LclusterSize();
    PartOfPartition(img, z, off);
    ExtentContains(idx, lcs, z.size, off);
    var k := ExtentOf(img, z, off).value.head;
    EarlierOwner(idx, lcs, k, h, off);
    ReachedAt(img, z, k);
    EndsBeforeNext(idx, lcs, z.size, k, h);
  }

  lemma ReachedAt(img: Image, z: ZMap, h: nat)
    requires Reached(img, z) && IsHeadAt(ReadIndex(img.dev, z), h)
    ensures InReach(ReadIndex(img.dev, z), z.LclusterSize(), z.size, h)
  {
    hide ReadIndex, InReach;
  }

  lemma OwnerStarts(idx: Index, lcs: nat, h: nat, off: nat)
    requires Owns(idx, lcs, h, off)
    ensures IsHeadAt(idx, h) && StartOf(idx, lcs, h) <= off
  {
  }

  /** The owner of a byte in front of head `h` lies in front of it. */
  lemma EarlierOwner(idx: Index, lcs: nat, k: nat, h: nat, off: nat)
    requires Owns(idx, lcs, k, off) && IsHeadAt(idx, h) && WfIndex(idx, lcs) && off < StartOf(idx, lcs, h)
    ensures IsHeadAt(idx, k) && k < h
  {
    hide WfIndex, WfShape, BoundedIndex, StartOf;
    ShapeOfWf(idx, lcs);
    BoundedOfWf(idx, lcs);
    OwnerStarts(idx, lcs, k, off);
    if h < k { StartsOrdered(idx, lcs, h, k); }
  }

  lemma BoundedOfWf(idx: Index, lcs: nat)
    requires WfShape(idx, lcs)
    ensures BoundedIndex(idx, lcs)
  {
  }

  lemma PartitionAt(img: Image, z: ZMap, off: nat)
    requires Partitioned(img, z) && off < FragmentStart(img, z)
    ensures InPartition(img, z, off) && FragmentStart(img, z) <= z.size
  {
    hide ExtentOf, InPartition;
  }

  /** How far the extent that owns byte `off` reaches behind it, or 0 if none properly does. */
  function RoomAt(img: Image, z: ZMap, off: nat): nat {
    var x := ExtentOf(img, z, off);
    if x.Ok? && x.value.start <= off < x.value.end && x.value.blockCount >= 1 then x.value.end - off else 0
  }

  /** Bytes from `off` on out of the one extent that owns it, `n` of them or as far as it reaches. */
  function ExtentPart(img: Image, z: ZMap, off: nat, n: nat): (r: Result<seq<byte>>)
    ensures r.Ok? ==> |r.value| == Min(n, RoomAt(img, z, off))
  {
    var x := ExtentOf(img, z, off);
    if x.Ok? && x.value.start <= off < x.value.end && x.value.blockCount >= 1 then
      ExtentSlice(img, z, x.value, off - x.value.start, Min(n, x.value.end - off))
    else Err
  }

  /** Bytes `[off, off + n)` of the file: extent by extent, and the rest out of the fragment. */
  function Covered(img: Image, z: ZMap, off: nat, n: nat, level: nat): (r: Result<seq<byte>>)
    ensures r.Ok? ==> |r.value| == n
    decreases n
  {
    if n == 0 then Ok([])
    else if off >= FragmentStart(img, z) then FragmentBytes(img, z, off, n, level)
    else if RoomAt(img, z, off) == 0 then Err
    else
      var take := Min(n, RoomAt(img, z, off));
      Both(ExtentPart(img, z, off, n), Covered(img, z, off + take, n - take, level))
  }

  lemma RoomInside(img: Image, z: ZMap, off: nat)
    requires Partitioned(img, z) && off < FragmentStart(img, z)
    ensures 0 < RoomAt(img, z, off) && off + RoomAt(img, z, off) <= FragmentStart(img, z) <= z.size
  {
    hide ExtentOf, FragmentStart;
    PartitionAt(img, z, off);
  }

  // ----- Slices of one extent join

  lemma {:induction false} RotatedSplit(onDisk: seq<byte>, len: nat, bs: nat, h: nat, from: nat, a: nat, b: nat)
    requires h < bs <= len
    ensures Rotated(onDisk, len, bs, h, from, a + b)
            == Both(Rotated(onDisk, len, bs, h, from, a), Rotated(onDisk, len, bs, h, from + a, b))
    decreases b
  {
    hide InterlacedIndex;
    var left := Rotated(onDisk, len, bs, h, from, a);
    if b == 0 {
      BothWithNothing(left);
    } else {
      RotatedSplit(onDisk, len, bs, h, from, a, b - 1);
      var right := Rotated(onDisk, len, bs, h, from + a, b - 1);
      var at := InterlacedIndex(len, bs, h, from + a + b - 1);
      if left.Ok? && right.Ok? && at < |onDisk| {
        assert (left.value + right.value) + [onDisk[at]] == left.value + (right.value + [onDisk[at]]);
      }
    }
  }

  lemma {:induction false} RotatedAt(onDisk: seq<byte>, bs: nat, h: nat, take: nat, k: nat)
    requires h < bs <= |onDisk| && k < take
    ensures var r := Rotated(onDisk, |onDisk|, bs, h, 0, take);
            r.Ok? && r.value[k] == onDisk[InterlacedIndex(|onDisk|, bs, h, k)]
    decreases take
  {
    hide InterlacedIndex;
    if k < take - 1 {
      RotatedAt(onDisk, bs, h, take - 1, k);
    } else if take > 1 {
      RotatedAt(onDisk, bs, h, take - 1, take - 2);
    }
  }

  /**
   Interlaced storage loses nothing: read in full, an extent that starts `h` bytes into a
   block is the tail of its pcluster's last block, and then everything before that tail.
   */
  lemma InterlacedIsRotation(onDisk: seq<byte>, bs: nat, h: nat)
    requires h < bs <= |onDisk|
    ensures var tail := |onDisk| - (bs - h);
            Rotated(onDisk, |onDisk|, bs, h, 0, |onDisk|) == Ok(onDisk[tail..] + onDisk[..tail])
  {
    hide Rotated, InterlacedIndex;
    var n, tail := |onDisk|, |onDisk| - (bs - h);
    var turned := onDisk[tail..] + onDisk[..tail];
    RotatedAt(onDisk, bs, h, n, 0);
    var r := Rotated(onDisk, n, bs, h, 0, n).value;
    forall k | 0 <= k < n
      ensures r[k] == turned[k]
    {
      RotatedAt(onDisk, bs, h, n, k);
      TurnedIndex(n, bs, h, k);
    }
    assert r == turned;
  }

  lemma TurnedIndex(n: nat, bs: nat, h: nat, k: nat)
    requires h < bs <= n && k < n
    ensures InterlacedIndex(n, bs, h, k) == if k < bs - h then n - (bs - h) + k else k - (bs - h)
  {
    if k < bs - h {
      DivModUnique(n - (bs - h) + k, n, 0, n - (bs - h) + k);
    } else {
      DivModUnique(n - (bs - h) + k, n, 1, k - (bs - h));
    }
  }

  lemma SliceJoins(img: Image, z: ZMap, x: Extent, from: nat, a: nat, b: nat)
    requires x.blockCount >= 1 && x.start + from + a + b <= x.end && a > 0 && b > 0
    ensures ExtentSlice(img, z, x, from, a + b)
            == Both(ExtentSlice(img, z, x, from, a), ExtentSlice(img, z, x, from + a, b))
  {
    if x.ctype == PLAIN {
      if InlineTail(z, x) {
        PlainInlineJoins(img, z, x, from, a, b);
      } else {
        PlainJoins(img, z, x, from, a, b);
      }
    } else {
      hide DecodeExtent;
      var whole := DecodeExtent(img, z, x);
      if whole.Ok? {
        assert whole.value[from..from + (a + b)] == whole.value[from..from + a] + whole.value[from + a..from + a + b];
      }
    }
  }

  lemma PlainJoins(img: Image, z: ZMap, x: Extent, from: nat, a: nat, b: nat)
    requires x.blockCount >= 1
    ensures FillPlain(img, z, x, from, a + b) == Both(FillPlain(img, z, x, from, a), FillPlain(img, z, x, from + a, b))
  {
    hide Rotated, Image.Read, Image.BlockSize, ZMap.Interlaced;
    var bs := img.BlockSize();
    MulMono(1, x.blockCount, bs);
    var len, at := x.blockCount * bs, x.blkaddr * bs;
    if z.Interlaced() {
      if img.Read(0, at, len).Ok? {
        RotatedSplit(img.Read(0, at, len).value, len, bs, x.start % bs, from, a, b);
      }
    } else {
      ReadsJoin(img, At(0, at), from, a, b);
    }
  }

  lemma PlainInlineJoins(img: Image, z: ZMap, x: Extent, from: nat, a: nat, b: nat)
    requires z.TailInline().Some? && a > 0 && b > 0
    ensures FillPlainInline(img, z, x, from, a + b)
            == Both(FillPlainInline(img, z, x, from, a), FillPlainInline(img, z, x, from + a, b))
  {
    hide Rotated, Image.Read, Image.BlockSize, ZMap.Interlaced, ZMap.TailInline;
    var bs := img.BlockSize();
    var (off, len) := z.TailInline().value;
    if z.Interlaced() {
      if img.Read(0, off, len).Ok? {
        RotatedSplit(img.Read(0, off, len).value, bs, bs, x.start % bs, from, a, b);
      }
    } else {
      ReadsJoin(img, At(0, off), from, a, b);
    }
  }

  /** Parts of one extent join. */
  lemma PartJoins(img: Image, z: ZMap, off: nat, a: nat, b: nat)
    requires Partitioned(img, z) && off < FragmentStart(img, z) && 0 < a < RoomAt(img, z, off) && b > 0
    ensures RoomAt(img, z, off + a) == RoomAt(img, z, off) - a
    ensures ExtentPart(img, z, off, a + b) == Both(ExtentPart(img, z, off, a), ExtentPart(img, z, off + a, b))
  {
    hide ExtentOf, ExtentSlice, FragmentStart;
    PartitionAt(img, z, off);
    var x := ExtentOf(img, z, off).value;
    assert ExtentOf(img, z, off + a) == Ok(x);
    SliceJoins(img, z, x, off - x.start, a, Min(a + b, x.end - off) - a);
  }

  lemma PartWhole(img: Image, z: ZMap, off: nat, n: nat, m: nat)
    requires RoomAt(img, z, off) <= n && RoomAt(img, z, off) <= m
    ensures ExtentPart(img, z, off, n) == ExtentPart(img, z, off, m)
  {
    hide ExtentOf, ExtentSlice;
  }

  lemma CoveredStep(img: Image, z: ZMap, off: nat, n: nat, level: nat)
    requires Partitioned(img, z) && off < FragmentStart(img, z) && n > 0
    ensures var take := Min(n, RoomAt(img, z, off));
            Covered(img, z, off, n, level) == Both(ExtentPart(img, z, off, n), Covered(img, z, off + take, n - take, level))
  {
    hide Partitioned, ExtentPart, RoomAt, FragmentStart;
    RoomInside(img, z, off);
  }

  lemma CoveredNone(img: Image, z: ZMap, off: nat, level: nat)
    ensures Covered(img, z, off, 0, level) == Ok([])
  {
  }

  lemma CoveredFragment(img: Image, z: ZMap, off: nat, n: nat, level: nat)
    requires off >= FragmentStart(img, z) && n > 0
    ensures Covered(img, z, off, n, level) == FragmentBytes(img, z, off, n, level)
  {
    hide FragmentStart, FragmentBytes;
  }

  lemma FragmentSplit(img: Image, z: ZMap, off: nat, a: nat, b: nat, level: nat)
    requires off >= FragmentStart(img, z) && a > 0 && b > 0
    ensures FragmentBytes(img, z, off, a + b, level)
            == Both(FragmentBytes(img, z, off, a, level), FragmentBytes(img, z, off + a, b, level))
  {
    hide FragmentRange, ReadFile, ReadIndex, Image.Packed;
    match FragmentRange(z, ReadIndex(img.dev, z))
    case Ok(Some((fragmentoff, start, end))) =>
      if img.Packed().Ok? && level > 0 {
        var packed, from := img.Packed().value, fragmentoff + (off - start);
        if from + a + b <= packed.size {
          AdjacentReads(img, packed, from, a, b, level - 1);
        } else {
          TooFar(img, packed, from, a + b, level - 1);
          TooFar(img, packed, from + a, b, level - 1);
        }
      }
    case _ =>
  }

  lemma TooFar(img: Image, inode: Inode, off: nat, n: nat, level: nat)
    requires off + n > inode.size
    ensures ReadFile(img, inode, off, n, level) == Err
  {
  }

  /** Where a run of bytes is cut does not matter. */
  lemma {:induction false} CoveredSplit(img: Image, z: ZMap, off: nat, a: nat, b: nat, level: nat)
    requires Partitioned(img, z)
    ensures Covered(img, z, off, a + b, level) == Both(Covered(img, z, off, a, level), Covered(img, z, off + a, b, level))
    decreases a
  {
    hide *;
    CoveredNone(img, z, off, level);
    CoveredNone(img, z, off + a, level);
    BothWithNothing(Covered(img, z, off, a, level));
    BothWithNothing(Covered(img, z, off, b, level));
    if a > 0 && b > 0 {
      if off >= FragmentStart(img, z) {
        CoveredFragment(img, z, off, a + b, level);
        CoveredFragment(img, z, off, a, level);
        CoveredFragment(img, z, off + a, b, level);
        FragmentSplit(img, z, off, a, b, level);
      } else {
        CoveredSplitExtent(img, z, off, a, b, level);
      }
    }
  }

  lemma {:induction false} CoveredSplitExtent(img: Image, z: ZMap, off: nat, a: nat, b: nat, level: nat)
    requires Partitioned(img, z) && off < FragmentStart(img, z) && a > 0 && b > 0
    ensures Covered(img, z, off, a + b, level) == Both(Covered(img, z, off, a, level), Covered(img, z, off + a, b, level))
    decreases a, 0
  {
    hide Covered, Partitioned, ExtentPart, Both, FragmentStart, RoomAt;
    var room := RoomAt(img, z, off);
    RoomInside(img, z, off);
    CoveredStep(img, z, off, a + b, level);
    CoveredStep(img, z, off, a, level);
    if room <= a {
      PartWhole(img, z, off, a, a + b);
      CoveredSplit(img, z, off + room, a - room, b, level);
      BothAssociates(ExtentPart(img, z, off, a), Covered(img, z, off + room, a - room, level), Covered(img, z, off + a, b, level));
    } else {
      PartJoins(img, z, off, a, b);
      CoveredStep(img, z, off + a, b, level);
      CoveredNone(img, z, off + a, level);
      var take := Min(a + b, room);
      BothWithNothing(ExtentPart(img, z, off, a));
      BothAssociates(ExtentPart(img, z, off, a), ExtentPart(img, z, off + a, b), Covered(img, z, off + take, a + b - take, level));
    }
  }

  // ----- The fill loop, and the blocks

  lemma FillOneIs(img: Image, z: ZMap, off: nat, room: nat, level: nat)
    requires Partitioned(img, z) && off < FragmentStart(img, z)
    ensures FillOne(img, z, off, room, level) == ExtentPart(img, z, off, room)
  {
    hide ExtentSlice, ReadIndex, ExtentAt, FragmentRange, ReadFile, Partitioned;
    PartitionAt(img, z, off);
    NotInFragment(img, z, off);
    PartitionRange(img, z);
  }

  lemma PartitionRange(img: Image, z: ZMap)
    requires Partitioned(img, z)
    ensures FragmentRange(z, ReadIndex(img.dev, z)).Ok? && FragmentStart(img, z) <= z.size
  {
    hide InPartition, FragmentRange, ReadIndex;
  }

  lemma NotInFragment(img: Image, z: ZMap, off: nat)
    requires off < FragmentStart(img, z)
    ensures match FragmentRange(z, ReadIndex(img.dev, z))
            case Ok(Some((_, start, _))) => off < start
            case _ => true
  {
    hide FragmentRange, ReadIndex;
  }

  lemma FillFragmentIs(img: Image, z: ZMap, off: nat, room: nat, level: nat)
    requires Partitioned(img, z) && FragmentStart(img, z) <= off && off + room <= z.size && room > 0
    ensures FillOne(img, z, off, room, level) == FragmentBytes(img, z, off, room, level)
  {
    hide ReadIndex, ReadFile, FillFromExtent, FragmentRange;
    PartitionRange(img, z);
    FragmentRunsToEnd(img, z);
    match FragmentRange(z, ReadIndex(img.dev, z))
    case Ok(Some((fragmentoff, start, end))) =>
      if img.Packed().Ok? && level > 0 && fragmentoff + (off - start) + room > img.Packed().value.size {
        TooFar(img, img.Packed().value, fragmentoff + (off - start), room, level - 1);
      }
    case _ =>
  }

  lemma FragmentRunsToEnd(img: Image, z: ZMap)
    ensures match FragmentRange(z, ReadIndex(img.dev, z))
            case Ok(Some((_, _, end))) => end == z.size
            case _ => true
  {
    hide ReadIndex, FragmentHead, FragmentCursor, StartOf;
  }

  /** The fill loop covers what it is asked for. */
  lemma {:induction false} FillLoopCovers(img: Image, z: ZMap, off: nat, room: nat, level: nat)
    requires Partitioned(img, z) && off + room <= z.size
    ensures ReadCompressed(img, z, off, room, level) == Covered(img, z, off, room, level)
    decreases room
  {
    hide FillOne, ExtentPart, RoomAt, Covered, FragmentBytes, FragmentStart, Partitioned;
    CoveredNone(img, z, off, level);
    if room > 0 {
      if off >= FragmentStart(img, z) {
        FillFragmentIs(img, z, off, room, level);
        CoveredFragment(img, z, off, room, level);
        CoveredLength(img, z, off, room, level);
        NothingToRead(img, z, off + room, level);
        BothWithNothing(FragmentBytes(img, z, off, room, level));
      } else {
        RoomInside(img, z, off);
        FillOneIs(img, z, off, room, level);
        CoveredStep(img, z, off, room, level);
        var got := FillOne(img, z, off, room, level);
        if got.Ok? {
          FillLoopCovers(img, z, off + |got.value|, room - |got.value|, level);
        }
      }
    }
  }

  lemma NothingToRead(img: Image, z: ZMap, off: nat, level: nat)
    ensures ReadCompressed(img, z, off, 0, level) == Ok([])
  {
  }

  lemma {:induction false} BlocksCover(img: Image, inode: Inode, z: ZMap, k: nat, at: nat, n: nat, level: nat)
    requires inode.layout.Compressed() && Partitioned(img, z) && z.size == inode.size
    requires n > 0 && at == k * img.BlockSize() && at + n == inode.size
    ensures ReadBlocks(img, inode, Some(z), at, n, level) == Covered(img, z, at, n, level)
    decreases n
  {
    hide *;
    var bs := img.BlockSize();
    var p := PieceAt(inode.size, bs, at, n);
    TailPiece(inode.size, bs, k, n);
    MulStep(k, bs);
    BlocksStep(img, inode, Some(z), at, n, level);
    CompressedBlock(img, inode, z, k, p.valid, level);
    FillLoopCovers(img, z, at, p.valid, level);
    CoveredLength(img, z, at, p.valid, level);
    AllOfBlock(Covered(img, z, at, p.valid, level), p);
    CoveredSplit(img, z, at, p.take, n - p.take, level);
    if p.take < n {
      BlocksCover(img, inode, z, k + 1, at + p.take, n - p.take, level);
    } else {
      NoBlocks(img, inode, Some(z), at + n, level);
      CoveredNone(img, z, at + n, level);
    }
  }

  lemma TailPiece(size: nat, bs: nat, k: nat, n: nat)
    requires bs > 0 && n > 0 && k * bs + n == size
    ensures var p := PieceAt(size, bs, k * bs, n);
            p.block == k && p.from == 0 && p.take == p.valid <= n && (p.take < n ==> p.take == bs)
  {
    PieceAtStart(size, bs, k, n);
  }

  lemma CompressedBlock(img: Image, inode: Inode, z: ZMap, k: nat, len: nat, level: nat)
    requires inode.layout.Compressed()
    ensures ReadDataBlock(img, inode, Some(z), k, len, level) == ReadCompressed(img, z, k * img.BlockSize(), len, level)
  {
    hide ReadCompressed, Image.BlockSize;
  }

  lemma CoveredLength(img: Image, z: ZMap, off: nat, n: nat, level: nat)
    ensures Covered(img, z, off, n, level).Ok? ==> |Covered(img, z, off, n, level).value| == n
  {
  }

  lemma AllOfBlock(block: Result<seq<byte>>, p: Piece)
    requires p.from == 0 && p.take == p.valid && (block.Ok? ==> |block.value| == p.valid)
    ensures PieceBytes(block, p) == block
  {
    assert block.Ok? ==> block.value[0..|block.value|] == block.value;
  }

  /**
   A compressed file reads as its extents in order, each decoded or copied whole, and then
   its fragment; it reads at all exactly when every one of them does.
   */
  lemma CompressedFileContent(img: Image, inode: Inode, z: ZMap, level: nat)
    requires inode.layout.Compressed() && img.ZMapFor(inode) == Ok(Some(z)) && Partitioned(img, z)
    ensures ReadFile(img, inode, 0, inode.size, level) == Covered(img, z, 0, inode.size, level)
  {
    hide ReadFile, ReadBlocks, Covered, Partitioned, Image.ZMapFor;
    ReadLength(img, inode, 0, 0, level);
    CoveredNone(img, z, 0, level);
    ZMapForSize(img, inode);
    if inode.size > 0 {
      ReadFileIs(img, inode, 0, inode.size, level);
      BlocksCover(img, inode, z, 0, 0, inode.size, level);
    }
  }

  /**
   A file with a fragment is what its own extents cover, followed by that many bytes of the
   packed inode. A file that is nothing but a fragment is a range of the packed inode.
   */
  lemma FragmentFileContent(img: Image, inode: Inode, z: ZMap, level: nat)
    requires inode.layout.Compressed() && img.ZMapFor(inode) == Ok(Some(z)) && Partitioned(img, z) && level > 0
    requires FragmentRange(z, ReadIndex(img.dev, z)).value.Some? && FragmentStart(img, z) < inode.size
    ensures var (fragmentoff, start, _) := FragmentRange(z, ReadIndex(img.dev, z)).value.value;
            ReadFile(img, inode, 0, inode.size, level)
            == Both(Covered(img, z, 0, start, level),
                    if img.Packed().Ok? then ReadFile(img, img.Packed().value, fragmentoff, inode.size - start, level - 1) else Err)
  {
    hide ReadFile, Covered, InPartition, Image.ZMapFor, ReadIndex, FragmentRange, Image.Packed;
    var start := FragmentStart(img, z);
    CompressedFileContent(img, inode, z, level);
    CoveredSplit(img, z, 0, start, inode.size - start, level);
    CoveredFragment(img, z, start, inode.size - start, level);
  }

  /** When every extent holds its part of `c`, the file reads as `c`. */
  ghost predicate ExtentsHold(img: Image, z: ZMap, c: seq<byte>) {
    && |c| == z.size
    && forall off: nat :: off < z.size && StartsAt(img, z, off) ==>
         HoldsExtent(img, z, c, ExtentOf(img, z, off).value)
  }

  ghost predicate HoldsExtent(img: Image, z: ZMap, c: seq<byte>, x: Extent) {
    && x.start <= x.end <= |c| && x.blockCount >= 1
    && ExtentSlice(img, z, x, 0, x.end - x.start) == Ok(c[x.start..x.end])
  }

  lemma {:induction false} CoveredHolds(img: Image, z: ZMap, c: seq<byte>, off: nat, level: nat)
    requires Partitioned(img, z) && FragmentStart(img, z) == z.size && ExtentsHold(img, z, c) && off <= z.size
    requires off < z.size ==> StartsAt(img, z, off)
    ensures Covered(img, z, off, z.size - off, level) == Ok(c[off..])
    decreases z.size - off
  {
    hide Covered, Partitioned, ExtentSlice, ExtentOf, FragmentStart;
    CoveredNone(img, z, z.size, level);
    if off < z.size {
      RoomInside(img, z, off);
      CoveredStep(img, z, off, z.size - off, level);
      var x := ExtentOf(img, z, off).value;
      assert HoldsExtent(img, z, c, x);
      assert ExtentPart(img, z, off, z.size - off) == ExtentSlice(img, z, x, 0, x.end - x.start);
      NextStarts(img, z, off);
      CoveredHolds(img, z, c, x.end, level);
      assert c[off..] == c[off..x.end] + c[x.end..];
    } else {
      assert c[off..] == [];
    }
  }

  ghost predicate StartsAt(img: Image, z: ZMap, off: nat) {
    ExtentOf(img, z, off).Ok? && ExtentOf(img, z, off).value.start == off
  }

  /** Behind an extent the next one starts. */
  lemma NextStarts(img: Image, z: ZMap, off: nat)
    requires Partitioned(img, z) && FragmentStart(img, z) == z.size && off < z.size && ExtentOf(img, z, off).Ok?
    ensures ExtentOf(img, z, off).value.end < z.size ==> StartsAt(img, z, ExtentOf(img, z, off).value.end)
  {
    hide ExtentOf, FragmentStart, Partitioned;
    PartitionAt(img, z, off);
    var x := ExtentOf(img, z, off).value;
    if x.end < z.size {
      PartitionAt(img, z, x.end);
      var y := ExtentOf(img, z, x.end).value;
      var last: nat := x.end - 1;
      assert ExtentOf(img, z, last) == Ok(x);
      assert y.start <= last ==> ExtentOf(img, z, last) == Ok(y);
    }
  }

  /** Then every read of the file is a slice of `c`. */
  lemma FileReadsAs(img: Image, inode: Inode, z: ZMap, c: seq<byte>, off: nat, n: nat, level: nat)
    requires inode.layout.Compressed() && img.ZMapFor(inode) == Ok(Some(z)) && Partitioned(img, z)
    requires FragmentStart(img, z) == z.size && ExtentsHold(img, z, c) && off + n <= inode.size
    ensures |c| == inode.size && ReadFile(img, inode, off, n, level) == Ok(c[off..off + n])
  {
    hide ReadFile, Covered, Partitioned, Image.ZMapFor, ExtentOf, FragmentStart;
    ZMapForSize(img, inode);
    CompressedFileContent(img, inode, z, level);
    FirstStarts(img, z);
    CoveredHolds(img, z, c, 0, level);
    assert c[0..] == c;
    ReadsAreSlices(img, inode, 0, inode.size, off, n, level);
  }

  /** What the extents cover is `c` from `off` on only if the extent that starts at `at` holds its part. */
  lemma {:induction false} CoveredNeeds(img: Image, z: ZMap, c: seq<byte>, off: nat, at: nat, level: nat)
    requires Partitioned(img, z) && FragmentStart(img, z) == z.size == |c| && off <= at < z.size
    requires StartsAt(img, z, off) && StartsAt(img, z, at)
    requires Covered(img, z, off, z.size - off, level) == Ok(c[off..])
    ensures HoldsExtent(img, z, c, ExtentOf(img, z, at).value)
    decreases z.size - off
  {
    hide Covered, Partitioned, ExtentSlice, ExtentOf, FragmentStart;
    RoomInside(img, z, off);
    CoveredStep(img, z, off, z.size - off, level);
    PartitionAt(img, z, off);
    var x := ExtentOf(img, z, off).value;
    var part, rest := ExtentPart(img, z, off, z.size - off), Covered(img, z, x.end, z.size - x.end, level);
    assert part == ExtentSlice(img, z, x, 0, x.end - x.start);
    assert c[off..] == part.value + rest.value;
    assert c[off..x.end] == c[off..][..x.end - off] == part.value;
    assert c[x.end..] == c[off..][x.end - off..] == rest.value;
    if at < x.end {
      assert ExtentOf(img, z, at) == Ok(x);
    } else {
      NextStarts(img, z, off);
      CoveredNeeds(img, z, c, x.end, at, level);
    }
  }

  /** Every read of the file is a slice of `c`. */
  ghost predicate ReadsAs(img: Image, inode: Inode, c: seq<byte>, level: nat) {
    forall off: nat, n: nat :: off + n <= |c| ==> ReadFile(img, inode, off, n, level) == Ok(c[off..off + n])
  }

  /** A file reads as `c` exactly when every extent holds its part of `c`. */
  lemma FileReadsAsIff(img: Image, inode: Inode, z: ZMap, c: seq<byte>, level: nat)
    requires inode.layout.Compressed() && img.ZMapFor(inode) == Ok(Some(z)) && Partitioned(img, z)
    requires FragmentStart(img, z) == z.size == |c|
    ensures ReadsAs(img, inode, c, level) <==> ExtentsHold(img, z, c)
  {
    hide ReadFile, Covered, Partitioned, Image.ZMapFor, ExtentOf, FragmentStart, HoldsExtent;
    ZMapForSize(img, inode);
    if ExtentsHold(img, z, c) {
      forall off: nat, n: nat | off + n <= |c|
        ensures ReadFile(img, inode, off, n, level) == Ok(c[off..off + n])
      {
        FileReadsAs(img, inode, z, c, off, n, level);
      }
    } else if ReadsAs(img, inode, c, level) {
      var at: nat :| at < z.size && StartsAt(img, z, at) && !HoldsExtent(img, z, c, ExtentOf(img, z, at).value);
      assert ReadFile(img, inode, 0, |c|, level) == Ok(c[0..0 + |c|]);
      assert c[0..0 + |c|] == c[0..];
      CompressedFileContent(img, inode, z, level);
      FirstStarts(img, z);
      CoveredNeeds(img, z, c, 0, at, level);
    }
  }

  lemma FirstStarts(img: Image, z: ZMap)
    requires Partitioned(img, z) && FragmentStart(img, z) == z.size
    ensures 0 < z.size ==> StartsAt(img, z, 0)
  {
    hide ExtentOf;
    if 0 < z.size {
      PartitionAt(img, z, 0);
    }
  }
}
