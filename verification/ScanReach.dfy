/**
 What the bound on the forward scan costs a read. Over-long compressed and interlaced
 extents are refused; over-long plain ones are not.
 */
module ScanReach {
  import opened Basics
  import opened CompactPack
  import opened CompressedContent
  import opened ExtentMap
  import opened FragmentWalk
  import opened Images
  import opened LegacyIndex
  import opened ReadPath
  import opened ZMapReader

  // ----- The reader without the bound

  function UnboundedExtentOfHead(idx: Index, lcs: nat, size: nat, h: nat): Result<Extent>
    requires lcs > 0 && h < |idx| && idx[h].Ok?
  {
    ExtentUpTo(idx, lcs, size, h, |idx|)
  }

  function UnboundedExtentAt(idx: Index, lcs: nat, size: nat, off: nat): Result<Extent>
    requires lcs > 0 && |idx| == DivCeil(size, lcs)
  {
    if off >= size then Err
    else
      LclusterInside(size, lcs, off);
      var h :- FindHead(idx, lcs, off / lcs, off % lcs);
      UnboundedExtentOfHead(idx, lcs, size, h)
  }

  lemma UnboundedHasBlocks(idx: Index, lcs: nat, size: nat, off: nat)
    requires lcs > 0 && |idx| == DivCeil(size, lcs)
    ensures UnboundedExtentAt(idx, lcs, size, off).Ok? ==> UnboundedExtentAt(idx, lcs, size, off).value.blockCount >= 1
  {
    hide DivCeil, FindHead, Scan, HasBit, StartOf;
  }

  /** `FillFromExtent`, had the scan no bound. */
  function FillUnbounded(img: Image, z: ZMap, off: nat, room: nat): (r: Result<seq<byte>>)
    ensures r.Ok? ==> |r.value| <= room
  {
    var x :- UnboundedExtentAt(ReadIndex(img.dev, z), z.LclusterSize(), z.size, off);
    UnboundedHasBlocks(ReadIndex(img.dev, z), z.LclusterSize(), z.size, off);
    FillFrom(img, z, x, off, room)
  }

  // ----- Refusal

  predicate Refusable(z: ZMap, x: Extent) {
    x.ctype != PLAIN || z.Interlaced()
  }

  /** `pcluster_span` refuses an over-long extent wherever it is asked, so no byte of it is ever read. */
  lemma LongExtentIsRefused(img: Image, z: ZMap, x: Extent, from: nat, take: nat)
    requires x.blockCount >= 1 && x.start + from + take <= x.end && x.end - x.start > MAX_PCLUSTER_SIZE
    requires Refusable(z, x)
    ensures ExtentSlice(img, z, x, from, take).Err?
  {
    hide Image.BlockSize, Image.Read, ZMap.TailInline, ZMap.Interlaced, HeaderAlgo, FrameBytes, Rotated;
  }

  lemma LongFillIsRefused(img: Image, z: ZMap, x: Extent, off: nat, room: nat)
    requires x.blockCount >= 1 && x.end > x.start + MAX_PCLUSTER_SIZE && Refusable(z, x)
    ensures FillFrom(img, z, x, off, room).Err?
  {
    hide ExtentSlice, Refusable;
    if x.start <= off <= x.end {
      LongExtentIsRefused(img, z, x, off - x.start, Min(room, x.end - off));
    }
  }

  /** A plain extent that is not interlaced has no use for its block count. */
  lemma PlainIgnoresBlocks(img: Image, z: ZMap, x: Extent, y: Extent, off: nat, room: nat)
    requires x.blockCount >= 1 && y == x.(blockCount := y.blockCount) && y.blockCount >= 1
    requires !Refusable(z, x)
    ensures FillFrom(img, z, x, off, room) == FillFrom(img, z, y, off, room)
  {
    hide Image.BlockSize, Image.Read, ZMap.TailInline, ZMap.Interlaced;
  }

  // ----- One extent with and without the bound

  /** The scan does not look past the head it finds. */
  lemma {:induction false} ScanStops(idx: Index, from: nat, until: nat, more: nat, c: Option<nat>)
    requires from <= until <= more <= |idx| && NextHead(idx, from) < until
    ensures Scan(idx, from, until, c) == Scan(idx, from, more, c)
    decreases until - from
  {
    if !IsHeadAt(idx, from) && idx[from].Ok? {
      ScanStops(idx, from + 1, until, more, if c.None? then idx[from].value.cblkcnt else c);
    }
  }

  /** Both extents of a head in reach are the same, but perhaps for the block count of one too long to read. */
  lemma ReachedExtent(idx: Index, lcs: nat, size: nat, h: nat)
    requires lcs > 0 && BoundedIndex(idx, lcs) && Scannable(idx) && |idx| == DivCeil(size, lcs)
    requires IsHeadAt(idx, h) && InReach(idx, lcs, size, h)
    ensures var x, y := ExtentOfHead(idx, lcs, size, h), UnboundedExtentOfHead(idx, lcs, size, h);
            && x.Ok? && y.Ok? && y.value == x.value.(blockCount := y.value.blockCount)
            && x.value.blockCount >= 1 && y.value.blockCount >= 1 && x.value.ctype == idx[h].value.ctype
            && (x == y || x.value.end > x.value.start + MAX_PCLUSTER_SIZE)
  {
    hide DivCeil, HasBit, NextHead, Scan, StartOf;
    var nh, until := NextHead(idx, h + 1), Min(h + 1 + Reach(lcs), |idx|);
    ScanFindsNext(idx, h + 1, until, None);
    ScanFindsNext(idx, h + 1, |idx|, None);
    if nh < until {
      ScanStops(idx, h + 1, until, |idx|, None);
    } else if until < |idx| {
      LastIsFar(idx, lcs, size, h);
    }
  }

  /** An index that goes on beyond reach has more bytes behind the head than a pcluster may have. */
  lemma LastIsFar(idx: Index, lcs: nat, size: nat, h: nat)
    requires lcs > 0 && BoundedIndex(idx, lcs) && |idx| == DivCeil(size, lcs)
    requires IsHeadAt(idx, h) && h + 1 + Reach(lcs) < |idx|
    ensures size > StartOf(idx, lcs, h) + MAX_PCLUSTER_SIZE
  {
    hide StartOf, BoundedIndex, DivCeil;
    DivCeilBounds(size, lcs);
    StartBounds(idx, lcs, h, h + 1);
    FarApart(h + 1, |idx| - 1, MAX_PCLUSTER_SIZE, lcs);
  }

  /** Both extents of a head out of reach are too long; only their ends differ. */
  lemma FarExtent(idx: Index, lcs: nat, size: nat, h: nat)
    requires lcs > 0 && BoundedIndex(idx, lcs) && Scannable(idx) && |idx| == DivCeil(size, lcs)
    requires IsHeadAt(idx, h) && !InReach(idx, lcs, size, h)
    ensures var x, y := ExtentOfHead(idx, lcs, size, h), UnboundedExtentOfHead(idx, lcs, size, h);
            && x.Ok? && y.Ok? && x.value.blockCount >= 1 && y.value.blockCount >= 1
            && x.value.ctype == y.value.ctype == idx[h].value.ctype
            && x.value.blkaddr == y.value.blkaddr == idx[h].value.uRaw
            && x.value.start == y.value.start == StartOf(idx, lcs, h)
            && x.value.end == size && y.value.end == TrueEnd(idx, lcs, size, h) < size
            && x.value.isLast && !y.value.isLast
            && y.value.end > y.value.start + MAX_PCLUSTER_SIZE
  {
    hide DivCeil, HasBit, NextHead, Scan, StartOf;
    ScanFindsNext(idx, h + 1, Min(h + 1 + Reach(lcs), |idx|), None);
    ScanFindsNext(idx, h + 1, |idx|, None);
    BoundedScanIsEnough(idx, lcs, size, h);
  }

  /** A head whose pcluster may be read beyond its end: plain and not interlaced. */
  ghost predicate PlainAt(z: ZMap, idx: Index, h: nat) {
    IsHeadAt(idx, h) && idx[h].value.ctype == PLAIN && !z.Interlaced()
  }

  ghost predicate PlainInReach(z: ZMap, idx: Index)
    requires |idx| == z.NLclusters()
  {
    forall h :: 0 <= h < |idx| && PlainAt(z, idx, h) ==> InReach(idx, z.LclusterSize(), z.size, h)
  }

  lemma SameFill(img: Image, z: ZMap, h: nat, off: nat, room: nat)
    requires BoundedIndex(ReadIndex(img.dev, z), z.LclusterSize()) && Scannable(ReadIndex(img.dev, z))
    requires IsHeadAt(ReadIndex(img.dev, z), h)
    requires PlainAt(z, ReadIndex(img.dev, z), h) ==> InReach(ReadIndex(img.dev, z), z.LclusterSize(), z.size, h)
    ensures var idx, lcs := ReadIndex(img.dev, z), z.LclusterSize();
            var x, y := ExtentOfHead(idx, lcs, z.size, h), UnboundedExtentOfHead(idx, lcs, z.size, h);
            && x.Ok? && y.Ok? && x.value.blockCount >= 1 && y.value.blockCount >= 1
            && FillFrom(img, z, x.value, off, room) == FillFrom(img, z, y.value, off, room)
  {
    hide ReadIndex, BoundedIndex, Scannable, ExtentOfHead, UnboundedExtentOfHead, FillFrom, ZMap.LclusterSize, DivCeil, InReach, StartOf, TrueEnd;
    hide ZMap.Interlaced;
    var idx, lcs := ReadIndex(img.dev, z), z.LclusterSize();
    if InReach(idx, lcs, z.size, h) {
      ReachedExtent(idx, lcs, z.size, h);
    } else {
      FarExtent(idx, lcs, z.size, h);
    }
    var x, y := ExtentOfHead(idx, lcs, z.size, h).value, UnboundedExtentOfHead(idx, lcs, z.size, h).value;
    if !InReach(idx, lcs, z.size, h) || (x != y && Refusable(z, x)) {
      LongFillIsRefused(img, z, x, off, room);
      LongFillIsRefused(img, z, y, off, room);
    } else if x != y {
      PlainIgnoresBlocks(img, z, x, y, off, room);
    }
  }

  lemma SameFillAt(img: Image, z: ZMap, off: nat, room: nat)
    requires BoundedIndex(ReadIndex(img.dev, z), z.LclusterSize()) && Scannable(ReadIndex(img.dev, z))
    requires PlainInReach(z, ReadIndex(img.dev, z))
    ensures FillFromExtent(img, z, off, room) == FillUnbounded(img, z, off, room)
  {
    hide *;
    var idx, lcs := ReadIndex(img.dev, z), z.LclusterSize();
    FillsResolve(img, z, off, room);
    if off < z.size {
      LclusterInside(z.size, lcs, off);
      var h := FindHead(idx, lcs, off / lcs, off % lcs);
      if h.Ok? {
        PlainReaches(z, idx, h.value);
        SameFill(img, z, h.value, off, room);
      }
    }
  }

  /** Both fills are those of the head the walk ends at. */
  lemma FillsResolve(img: Image, z: ZMap, off: nat, room: nat)
    ensures off >= z.size ==> FillFromExtent(img, z, off, room) == FillUnbounded(img, z, off, room) == Err
    ensures off < z.size ==>
              var idx, lcs := ReadIndex(img.dev, z), z.LclusterSize();
              && lcs > 0 && off / lcs < |idx|
              && var h := FindHead(idx, lcs, off / lcs, off % lcs);
                 && (h.Err? ==> FillFromExtent(img, z, off, room) == FillUnbounded(img, z, off, room) == Err)
                 && (h.Ok? ==>
                       && IsHeadAt(idx, h.value)
                       && var x, y := ExtentOfHead(idx, lcs, z.size, h.value), UnboundedExtentOfHead(idx, lcs, z.size, h.value);
                          (x.Ok? && y.Ok? && x.value.blockCount >= 1 && y.value.blockCount >= 1 ==>
                             && FillFromExtent(img, z, off, room) == FillFrom(img, z, x.value, off, room)
                             && FillUnbounded(img, z, off, room) == FillFrom(img, z, y.value, off, room)))
  {
    hide ReadIndex, ExtentOfHead, UnboundedExtentOfHead, FillFrom, FindHead, DivCeil, ZMap.LclusterSize;
    if off < z.size {
      LclusterInside(z.size, z.LclusterSize(), off);
    }
  }

  lemma PlainReaches(z: ZMap, idx: Index, h: nat)
    requires |idx| == z.NLclusters() && PlainInReach(z, idx) && h < |idx|
    ensures PlainAt(z, idx, h) ==> InReach(idx, z.LclusterSize(), z.size, h)
  {
    hide PlainAt, InReach, ZMap.LclusterSize;
  }

  /** A head is found from the byte it starts at. */
  lemma HeadFindsItself(idx: Index, lcs: nat, size: nat, h: nat)
    requires lcs > 0 && BoundedIndex(idx, lcs) && |idx| == DivCeil(size, lcs) && IsHeadAt(idx, h)
    requires StartOf(idx, lcs, h) < size
    ensures ExtentAt(idx, lcs, size, StartOf(idx, lcs, h)) == ExtentOfHead(idx, lcs, size, h)
    ensures UnboundedExtentAt(idx, lcs, size, StartOf(idx, lcs, h)) == UnboundedExtentOfHead(idx, lcs, size, h)
  {
    hide DivCeil, ExtentOfHead, UnboundedExtentOfHead;
    DivModUnique(StartOf(idx, lcs, h), lcs, h, idx[h].value.clusterofs);
  }

  /** The bytes of every plain pcluster with an out-of-reach head behind it are there. */
  ghost predicate FarPlainOnDevice(img: Image, z: ZMap) {
    var idx, lcs := ReadIndex(img.dev, z), z.LclusterSize();
    forall h :: 0 <= h < |idx| && PlainAt(z, idx, h) && !InReach(idx, lcs, z.size, h) ==>
      idx[h].value.uRaw * img.BlockSize() + TrueEnd(idx, lcs, z.size, h) <= |img.dev| + StartOf(idx, lcs, h)
  }

  /** Two plain extents at one address: reading one byte past the end of the shorter tells them apart. */
  lemma PlainEndsTell(img: Image, z: ZMap, x: Extent, y: Extent, off: nat, n: nat)
    requires x.blockCount >= 1 && y.blockCount >= 1 && x.ctype == y.ctype == PLAIN && !z.Interlaced()
    requires x.start == y.start <= off && x.blkaddr == y.blkaddr && off + n == y.end < x.end && !y.isLast
    requires y.blkaddr * img.BlockSize() + (y.end - y.start) <= |img.dev|
    ensures FillFrom(img, z, x, off, n + 1) != FillFrom(img, z, y, off, n + 1)
  {
    hide ZMap.Interlaced, Image.BlockSize, ZMap.TailInline;
    var a, b := FillFrom(img, z, x, off, n + 1), FillFrom(img, z, y, off, n + 1);
    assert b == img.Read(0, y.blkaddr * img.BlockSize() + (off - y.start), n);
    assert b.Ok? && |b.value| == n;
    assert a.Ok? ==> |a.value| == n + 1;
  }

  lemma InlineIsShort(z: ZMap)
    ensures z.TailInline().Some? ==> z.TailInline().value.1 <= U16_MAX
  {
    hide ZMap.HasInlineTail, ZMap.HasFragment, ZMap.IndexBytesLen;
  }

  /** The read that tells: from the start of a plain head to one byte behind its true end. */
  lemma FarFillDiffers(img: Image, z: ZMap, h: nat)
    requires BoundedIndex(ReadIndex(img.dev, z), z.LclusterSize()) && Scannable(ReadIndex(img.dev, z))
    requires PlainAt(z, ReadIndex(img.dev, z), h)
    requires !InReach(ReadIndex(img.dev, z), z.LclusterSize(), z.size, h) && FarPlainOnDevice(img, z)
    ensures var start := StartOf(ReadIndex(img.dev, z), z.LclusterSize(), h);
            var room := TrueEnd(ReadIndex(img.dev, z), z.LclusterSize(), z.size, h) - start + 1;
            start < z.size && room > 0 && FillFromExtent(img, z, start, room) != FillUnbounded(img, z, start, room)
  {
    hide ReadIndex, BoundedIndex, Scannable, ExtentOfHead, UnboundedExtentOfHead, ExtentAt, UnboundedExtentAt, DivCeil, FillFrom;
    hide ZMap.LclusterSize, InReach, StartOf, TrueEnd, ZMap.Interlaced, Image.BlockSize;
    var idx, lcs := ReadIndex(img.dev, z), z.LclusterSize();
    FarExtent(idx, lcs, z.size, h);
    HeadFindsItself(idx, lcs, z.size, h);
    PlainEndsTell(img, z, ExtentOfHead(idx, lcs, z.size, h).value, UnboundedExtentOfHead(idx, lcs, z.size, h).value,
                  StartOf(idx, lcs, h), TrueEnd(idx, lcs, z.size, h) - StartOf(idx, lcs, h));
  }

  /**
   The bounded scan loses nothing to fills of any size exactly when no plain head that is not
   interlaced has its next head out of reach: otherwise some fill runs on into a pcluster
   that is not its own.
   */
  lemma BoundedFillsAgreeIff(img: Image, z: ZMap)
    requires BoundedIndex(ReadIndex(img.dev, z), z.LclusterSize()) && Scannable(ReadIndex(img.dev, z))
    requires FarPlainOnDevice(img, z)
    ensures (forall off: nat, room: nat :: off < z.size ==> FillFromExtent(img, z, off, room) == FillUnbounded(img, z, off, room))
            <==> PlainInReach(z, ReadIndex(img.dev, z))
  {
    hide ReadIndex, BoundedIndex, Scannable, FarPlainOnDevice, FillFromExtent, FillUnbounded, InReach, StartOf, TrueEnd, ZMap.Interlaced;
    hide ZMap.LclusterSize, DivCeil;
    var idx := ReadIndex(img.dev, z);
    if PlainInReach(z, idx) {
      forall off: nat, room: nat | off < z.size
        ensures FillFromExtent(img, z, off, room) == FillUnbounded(img, z, off, room)
      {
        SameFillAt(img, z, off, room);
      }
    } else {
      var h :| 0 <= h < |idx| && PlainAt(z, idx, h) && !InReach(idx, z.LclusterSize(), z.size, h);
      FarFillDiffers(img, z, h);
    }
  }

  // ----- The fills a read asks for

  /** A fill that stays in one block of the file. */
  predicate InBlock(img: Image, z: ZMap, off: nat, room: nat) {
    off < z.size && off + room <= z.size && off % img.BlockSize() + room <= img.BlockSize()
  }

  /** Where a plain head's next one is out of reach, it starts a block, and no tail is inlined. */
  ghost predicate FarPlainHarmless(img: Image, z: ZMap, idx: Index)
    requires |idx| == z.NLclusters()
  {
    forall h :: 0 <= h < |idx| && PlainAt(z, idx, h) && !InReach(idx, z.LclusterSize(), z.size, h) ==>
      TrueEnd(idx, z.LclusterSize(), z.size, h) % img.BlockSize() == 0 && z.TailInline().None?
  }

  /** Both readers resolve an offset to the head that owns it. */
  lemma OwnerDecides(idx: Index, lcs: nat, size: nat, h: nat, off: nat)
    requires lcs > 0 && WfIndex(idx, lcs) && |idx| == DivCeil(size, lcs) && off < size && Owns(idx, lcs, h, off)
    ensures ExtentAt(idx, lcs, size, off) == ExtentOfHead(idx, lcs, size, h)
    ensures UnboundedExtentAt(idx, lcs, size, off) == UnboundedExtentOfHead(idx, lcs, size, h)
  {
    hide DivCeil, WfIndex, WfShape, ExtentOfHead, UnboundedExtentOfHead, Owns, FindHead;
    ShapeOfWf(idx, lcs);
    LclusterInside(size, lcs, off);
    WalkFindsOwner(idx, lcs, off);
    OwnerUnique(idx, lcs, FindHead(idx, lcs, off / lcs, off % lcs).value, h, off);
  }

  /** A head owns everything from its start to its true end. */
  lemma OwnsUpToEnd(idx: Index, lcs: nat, size: nat, h: nat, off: nat)
    requires BoundedIndex(idx, lcs) && IsHeadAt(idx, h) && StartOf(idx, lcs, h) <= off < TrueEnd(idx, lcs, size, h)
    ensures Owns(idx, lcs, h, off)
  {
    hide StartOf, BoundedIndex;
    var nh := NextHead(idx, h + 1);
    forall k | h < k < |idx| && IsHeadAt(idx, k)
      ensures off < StartOf(idx, lcs, k)
    {
      if nh < k {
        StartsOrdered(idx, lcs, nh, k);
      }
    }
  }

  /** A block of the file that starts before `end` ends there at the latest, if blocks do. */
  lemma BlockEndsBefore(off: nat, room: nat, end: nat, bs: nat)
    requires bs > 0 && end % bs == 0 && off < end && off % bs + room <= bs
    ensures off + room <= end
  {
    var a, b := off / bs, end / bs;
    assert off == a * bs + off % bs && end == b * bs;
    MulStep(a, bs);
    if b <= a {
      MulMono(b, a, bs);
    } else {
      MulMono(a + 1, b, bs);
    }
  }

  /** Inside both, without an inlined tail, the two extents of a far plain head are read alike. */
  lemma SamePlainFill(img: Image, z: ZMap, x: Extent, y: Extent, off: nat, room: nat)
    requires x.blockCount >= 1 && y.blockCount >= 1 && x.ctype == y.ctype == PLAIN && !z.Interlaced() && z.TailInline().None?
    requires x.start == y.start <= off && x.blkaddr == y.blkaddr && off + room <= y.end <= x.end
    ensures FillFrom(img, z, x, off, room) == FillFrom(img, z, y, off, room)
  {
    hide ZMap.Interlaced, Image.BlockSize, Image.Read, ZMap.TailInline;
  }

  lemma SameBlockFill(img: Image, z: ZMap, off: nat, room: nat)
    requires WfIndex(ReadIndex(img.dev, z), z.LclusterSize()) && FarPlainHarmless(img, z, ReadIndex(img.dev, z))
    requires InBlock(img, z, off, room)
    ensures FillFromExtent(img, z, off, room) == FillUnbounded(img, z, off, room)
  {
    hide ReadIndex, ExtentOfHead, UnboundedExtentOfHead, ExtentAt, UnboundedExtentAt, WfIndex, FillFrom, ZMap.LclusterSize, DivCeil;
    hide InReach, StartOf, TrueEnd, ZMap.Interlaced, Image.BlockSize, ZMap.TailInline, BoundedIndex, Scannable, Owns;
    var idx, lcs := ReadIndex(img.dev, z), z.LclusterSize();
    WfIsScannable(idx, lcs);
    ExtentContains(idx, lcs, z.size, off);
    var h := ExtentAt(idx, lcs, z.size, off).value.head;
    OwnerIsHead(idx, lcs, h, off);
    OwnerDecides(idx, lcs, z.size, h, off);
    if PlainAt(z, idx, h) && !InReach(idx, lcs, z.size, h) {
      FarExtent(idx, lcs, z.size, h);
      OwnerEndsBehind(idx, lcs, z.size, h, off);
      BlockEndsBefore(off, room, TrueEnd(idx, lcs, z.size, h), img.BlockSize());
      SamePlainFill(img, z, ExtentOfHead(idx, lcs, z.size, h).value, UnboundedExtentOfHead(idx, lcs, z.size, h).value, off, room);
    } else {
      SameFill(img, z, h, off, room);
    }
  }

  lemma OwnerIsHead(idx: Index, lcs: nat, h: nat, off: nat)
    requires Owns(idx, lcs, h, off)
    ensures IsHeadAt(idx, h) && StartOf(idx, lcs, h) <= off
  {
  }

  /** A tail inlined behind the index is taken for the start of a plain head that runs to the end of the file. */
  lemma InlineTells(img: Image, z: ZMap, x: Extent, y: Extent)
    requires x.blockCount >= 1 && y.blockCount >= 1 && x.ctype == y.ctype == PLAIN && !z.Interlaced()
    requires z.TailInline().Some? && x.isLast && !y.isLast && x.start == y.start && x.blkaddr == y.blkaddr
    requires y.start + z.TailInline().value.1 < y.end < x.end
    requires y.blkaddr * img.BlockSize() + (y.end - y.start) <= |img.dev|
    ensures var off := x.start + z.TailInline().value.1;
            FillFrom(img, z, x, off, 1) != FillFrom(img, z, y, off, 1)
  {
    hide ZMap.Interlaced, Image.BlockSize, ZMap.TailInline;
  }

  /** The fill that tells, and stays in one block. */
  lemma FarBlockFillDiffers(img: Image, z: ZMap, h: nat) returns (off: nat, room: nat)
    requires WfIndex(ReadIndex(img.dev, z), z.LclusterSize()) && FarPlainOnDevice(img, z)
    requires PlainAt(z, ReadIndex(img.dev, z), h) && !InReach(ReadIndex(img.dev, z), z.LclusterSize(), z.size, h)
    requires TrueEnd(ReadIndex(img.dev, z), z.LclusterSize(), z.size, h) % img.BlockSize() != 0 || z.TailInline().Some?
    ensures InBlock(img, z, off, room) && FillFromExtent(img, z, off, room) != FillUnbounded(img, z, off, room)
  {
    hide ReadIndex, ExtentOfHead, UnboundedExtentOfHead, ExtentAt, UnboundedExtentAt, WfIndex, FillFrom, ZMap.LclusterSize, DivCeil;
    hide InReach, StartOf, TrueEnd, ZMap.Interlaced, Image.BlockSize, ZMap.TailInline, BoundedIndex, Scannable, Owns;
    var idx, lcs, bs := ReadIndex(img.dev, z), z.LclusterSize(), img.BlockSize();
    WfIsScannable(idx, lcs);
    FarExtent(idx, lcs, z.size, h);
    var x, y := ExtentOfHead(idx, lcs, z.size, h).value, UnboundedExtentOfHead(idx, lcs, z.size, h).value;
    if z.TailInline().Some? {
      InlineIsShort(z);
      off, room := x.start + z.TailInline().value.1, 1;
      InlineTells(img, z, x, y);
    } else {
      off, room := LastBlockBefore(x.start, y.end, bs);
      PlainEndsTell(img, z, x, y, off, room - 1);
    }
    OwnsUpToEnd(idx, lcs, z.size, h, off);
    OwnerDecides(idx, lcs, z.size, h, off);
  }

  /** From `start`, or from the start of the block `end` lies in, to one byte behind `end`. */
  lemma LastBlockBefore(start: nat, end: nat, bs: nat) returns (off: nat, room: nat)
    requires bs > 0 && start < end && end % bs != 0
    ensures start <= off < end && off + room == end + 1 && off % bs + room <= bs
  {
    off := Max(start, end - end % bs);
    room := end + 1 - off;
    DivModUnique(off, bs, end / bs, off - end / bs * bs);
  }

  /**
   The bounded scan loses nothing to reads, which never ask for more than the rest of a
   block, exactly when the heads out of reach behind plain ones start blocks and no tail is
   inlined.
   */
  lemma BoundedReadsAgreeIff(img: Image, z: ZMap)
    requires WfIndex(ReadIndex(img.dev, z), z.LclusterSize()) && FarPlainOnDevice(img, z)
    ensures (forall off: nat, room: nat :: InBlock(img, z, off, room) ==>
                                             FillFromExtent(img, z, off, room) == FillUnbounded(img, z, off, room))
            <==> FarPlainHarmless(img, z, ReadIndex(img.dev, z))
  {
    hide ReadIndex, WfIndex, FarPlainOnDevice, FillFromExtent, FillUnbounded, InReach, StartOf, TrueEnd, PlainAt, InBlock;
    hide ZMap.LclusterSize, DivCeil, Image.BlockSize, ZMap.TailInline;
    var idx := ReadIndex(img.dev, z);
    if FarPlainHarmless(img, z, idx) {
      forall off: nat, room: nat | InBlock(img, z, off, room)
        ensures FillFromExtent(img, z, off, room) == FillUnbounded(img, z, off, room)
      {
        SameBlockFill(img, z, off, room);
      }
    } else {
      var h :| 0 <= h < |idx| && PlainAt(z, idx, h) && !InReach(idx, z.LclusterSize(), z.size, h)
               && (TrueEnd(idx, z.LclusterSize(), z.size, h) % img.BlockSize() != 0 || z.TailInline().Some?);
      var off, room := FarBlockFillDiffers(img, z, h);
    }
  }

  /** A plain extent in blocks of its own, read inside its bounds. */
  lemma PlainFill(img: Image, z: ZMap, x: Extent, off: nat, room: nat)
    requires x.blockCount >= 1 && x.ctype == PLAIN && !z.Interlaced() && !InlineTail(z, x)
    requires x.start <= off && off + room <= x.end
    ensures FillFrom(img, z, x, off, room) == img.Read(0, x.blkaddr * img.BlockSize() + (off - x.start), room)
  {
    hide ZMap.Interlaced, Image.BlockSize, Image.Read, InlineTail;
  }

  /** A fill that takes all the room ends the loop. */
  lemma OneFillIsEnough(img: Image, z: ZMap, off: nat, room: nat, level: nat)
    requires !z.HasFragment() && off < z.size && room > 0
    requires FillFromExtent(img, z, off, room).Ok? ==> |FillFromExtent(img, z, off, room).value| == room
    ensures ReadCompressed(img, z, off, room, level) == FillFromExtent(img, z, off, room)
  {
    hide FillFromExtent, ReadIndex, FragmentRange, ZMap.HasFragment;
    NoFragmentRange(z, ReadIndex(img.dev, z));
    var got := FillFromExtent(img, z, off, room);
    assert FillOne(img, z, off, room, level) == got;
    NothingToRead(img, z, off + room, level);
    if got.Ok? {
      assert got.value + [] == got.value;
    }
  }

  lemma NoInlineTail(z: ZMap, x: Extent)
    requires !z.HasInlineTail()
    ensures !InlineTail(z, x)
  {
  }

  /**
   A well-formed index where it does not: 3073 lclusters behind an uncompressed head the
   next one starts at byte 100. Its block is read from the first head's pcluster, to the
   end; a read that starts at byte 100 gets the second head's bytes.
   */
  lemma FarHeadReadsWrong(img: Image, z: ZMap, blk: nat, next: nat, level: nat)
    requires ReadIndex(img.dev, z) == FarIndex(blk, next) && z.LclusterSize() == img.BlockSize() == 4096 && z.size == 3075 * 4096
    requires !z.Interlaced() && !z.HasFragment() && !z.HasInlineTail()
    ensures ReadCompressed(img, z, 3074 * 4096, 4096, level) == img.Read(0, blk * 4096 + 3074 * 4096, 4096)
    ensures FillFromExtent(img, z, 3074 * 4096 + 100, 3996) == img.Read(0, next * 4096, 3996)
  {
    hide ReadIndex, ExtentAt, DivCeil, ZMap.Interlaced, ZMap.HasInlineTail, ZMap.HasFragment, ZMap.LclusterSize, Image.BlockSize;
    hide FillFrom, InlineTail, Image.Read, FarIndex, InReach, WfIndex, ReadCompressed;
    FarHeadIsMissed(blk, next);
    FarExtentFields(blk, next);
    var idx, size := FarIndex(blk, next), 3075 * 4096;
    var a, b := ExtentAt(idx, 4096, size, 3074 * 4096).value, ExtentAt(idx, 4096, size, 3074 * 4096 + 100).value;
    NoInlineTail(z, a);
    NoInlineTail(z, b);
    PlainFill(img, z, a, 3074 * 4096, 4096);
    PlainFill(img, z, b, 3074 * 4096 + 100, 3996);
    OneFillIsEnough(img, z, 3074 * 4096, 4096, level);
  }

  /** That index as the legacy format holds it. */
  function FarEntries(blk: nat, next: nat): (es: seq<LegacyEntry>)
    ensures |es| == 3075
  {
    seq(3075, i requires 0 <= i < 3075 =>
      if i == 0 then LegacyEntry(PLAIN, 0, blk)
      else if i < 3074 then LegacyEntry(NONHEAD, 0, i)
      else LegacyEntry(PLAIN, 100, next))
  }

  /** 24600 bytes of a device are enough for it. */
  lemma FarIndexIsOnDisk(dev: seq<byte>, z: ZMap, blk: nat, next: nat)
    requires z.legacy && !z.BigPcluster() && z.NLclusters() == 3075 && blk <= U32_MAX && next <= U32_MAX
    requires ReadAt(dev, z.indexStart, 8 * 3075) == Ok(LegacyBytes(FarEntries(blk, next)))
    ensures ReadIndex(dev, z) == FarIndex(blk, next)
  {
    hide LegacyBytes, ReadLclusterLegacy, ReadAt, ZMap.BigPcluster, ZMap.NLclusters;
    var es := FarEntries(blk, next);
    forall i | 0 <= i < 3075
      ensures ReadLcluster(dev, z, i) == Ok(AsRead(es[i]))
    {
      LegacyIndexReadsBack(dev, z.indexStart, es, i);
    }
  }

  lemma FarExtentFields(blk: nat, next: nat)
    requires 3075 == DivCeil(3075 * 4096, 4096)
    ensures var idx, size := FarIndex(blk, next), 3075 * 4096;
            var a, b := ExtentAt(idx, 4096, size, 3074 * 4096), ExtentAt(idx, 4096, size, 3074 * 4096 + 100);
            && a.Ok? && b.Ok? && a.value.ctype == b.value.ctype == PLAIN && a.value.blockCount >= 1 && b.value.blockCount >= 1
            && a.value.blkaddr == blk && b.value.blkaddr == next
  {
    hide ExtentAt, DivCeil, WfIndex, NextHead, Reach, Scan, HasBit;
    var idx, size := FarIndex(blk, next), 3075 * 4096;
    FarHeadIsMissed(blk, next);
    FarIndexIsWf(blk, next);
    WfIsScannable(idx, 4096);
    HeadFindsItself(idx, 4096, size, 3074);
    ExtentHasBlocks(idx, 4096, size, 3074 * 4096);
    ExtentHasBlocks(idx, 4096, size, 3074 * 4096 + 100);
    ExtentContains(idx, 4096, size, 3074 * 4096);
    assert ExtentAt(idx, 4096, size, 3074 * 4096) == ExtentOfHead(idx, 4096, size, 0);
  }
}
