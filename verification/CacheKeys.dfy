/**
 What a cache key says about the extent behind it, and what the cache needs it to say.
 */
module CacheKeys {
  import opened Basics
  import opened Bits
  import opened CompactIndex
  import opened CompactPack
  import opened CompactRoundTrip
  import opened ExtentMap
  import opened Images
  import opened LegacyIndex
  import opened PclusterCache
  import opened ReadPath
  import opened ZMapReader

  // ----- Keys name extents

  function KeyOf(nid: nat, x: Extent): Key {
    Key(nid, x.blkaddr, x.start, x.end)
  }

  /** In a bounded index the first byte of an extent already names its head, and so all of it. */
  lemma StartDeterminesExtent(idx: Index, lcs: nat, size: nat, off: nat, other: nat)
    requires lcs > 0 && |idx| == DivCeil(size, lcs) && BoundedIndex(idx, lcs)
    requires ExtentAt(idx, lcs, size, off).Ok? && ExtentAt(idx, lcs, size, other).Ok?
    requires ExtentAt(idx, lcs, size, off).value.start == ExtentAt(idx, lcs, size, other).value.start
    ensures ExtentAt(idx, lcs, size, off) == ExtentAt(idx, lcs, size, other)
  {
    hide DivCeil, BoundedIndex, ExtentOfHead, ExtentAt, StartOf;
    var h := HeadAt(idx, lcs, size, off);
    var k := HeadAt(idx, lcs, size, other);
    HeadStart(idx, lcs, size, h);
    HeadStart(idx, lcs, size, k);
    if h < k {
      StartsOrdered(idx, lcs, h, k);
    } else if k < h {
      StartsOrdered(idx, lcs, k, h);
    }
  }

  lemma HeadAt(idx: Index, lcs: nat, size: nat, off: nat) returns (h: nat)
    requires lcs > 0 && |idx| == DivCeil(size, lcs) && ExtentAt(idx, lcs, size, off).Ok?
    ensures IsHeadAt(idx, h) && ExtentAt(idx, lcs, size, off) == ExtentOfHead(idx, lcs, size, h)
  {
    hide DivCeil, FindHead, ExtentOfHead;
    LclusterInside(size, lcs, off);
    h := FindHead(idx, lcs, off / lcs, off % lcs).value;
    FoundIsHead(idx, lcs, off / lcs, off % lcs);
  }

  lemma FoundIsHead(idx: Index, lcs: nat, i: nat, inLcluster: nat)
    requires i < |idx| && FindHead(idx, lcs, i, inLcluster).Ok?
    ensures IsHeadAt(idx, FindHead(idx, lcs, i, inLcluster).value)
  {
  }

  function HeadEntry(ctype: nat, clusterofs: nat, blk: nat): Result<LEntry> {
    Ok(LEntry(ctype, ctype, clusterofs, blk, None))
  }

  /**
   Lcluster 0 opens two lclusters late with codec 2, lcluster 2 on time with codec 1, on
   the same block, and the NONHEAD in lcluster 3 points back to lcluster 0.
   */
  function ClashingIndex(lcs: nat, blk: nat): Index {
    [HeadEntry(HEAD2, 2 * lcs, blk), HeadEntry(HEAD1, 3 * lcs, blk), HeadEntry(HEAD1, 0, blk),
     Ok(LEntry(NONHEAD, NONHEAD, 0, 3, None)), HeadEntry(HEAD1, 0, blk)]
  }

  /** Without the bound two heads of different codecs can share a key, and both get asked for. */
  lemma UnboundedKeysClash(lcs: nat, blk: nat)
    requires lcs > 0
    ensures |ClashingIndex(lcs, blk)| == DivCeil(5 * lcs, lcs)
    ensures var x, y := ExtentAt(ClashingIndex(lcs, blk), lcs, 5 * lcs, 2 * lcs), ExtentAt(ClashingIndex(lcs, blk), lcs, 5 * lcs, 3 * lcs);
            && x.Ok? && y.Ok? && x.value.start <= 2 * lcs < x.value.end && y.value.start <= 3 * lcs < y.value.end
            && KeyOf(0, x.value) == KeyOf(0, y.value) && x.value.end - x.value.start == 2 * lcs
            && x.value.ctype == HEAD1 && y.value.ctype == HEAD2
  {
    hide DivCeil, Scan, Reach, HasBit;
    var idx := ClashingIndex(lcs, blk);
    assert DivCeil(5 * lcs, lcs) == 5 by { FiveLclusters(lcs); }
    DivModUnique(2 * lcs, lcs, 2, 0);
    DivModUnique(3 * lcs, lcs, 3, 0);
    ClashHeads(idx, lcs, blk);
  }

  lemma FiveLclusters(lcs: nat)
    requires lcs > 0
    ensures DivCeil(5 * lcs, lcs) == 5
  {
    DivModUnique(6 * lcs - 1, lcs, 5, lcs - 1);
  }

  lemma ClashHeads(idx: Index, lcs: nat, blk: nat)
    requires lcs > 0 && idx == ClashingIndex(lcs, blk)
    ensures Scan(idx, 1, Min(1 + Reach(lcs), 5), None) == Ok((Some(1), None))
    ensures Scan(idx, 3, Min(3 + Reach(lcs), 5), None) == Ok((Some(4), None))
  {
    assert Reach(lcs) >= 2;
    assert Scan(idx, 4, 5, None) == Ok((Some(4), None));
  }

  // ----- What decoding depends on besides the key

  /** An inlined tail of no bytes that decodes to none. */
  predicate NothingToDecode(z: ZMap, x: Extent) {
    x.start == x.end && InlineTail(z, x) && z.TailInline().value.1 == 0
  }

  /** The codec, the block count unless the bytes are inlined, and whether a prefix will do. */
  function Recipe(z: ZMap, x: Extent): Result<Option<(nat, Option<nat>, bool)>> {
    var algo :- HeaderAlgo(z, x.ctype);
    if NothingToDecode(z, x) then Ok(None)
    else Ok(Some((algo, if InlineTail(z, x) then None else Some(x.blockCount), x.partialRef)))
  }

  ghost predicate SameKey(x: Extent, y: Extent) {
    KeyOf(0, x) == KeyOf(0, y) && x.isLast == y.isLast
  }

  /** Key and recipe decide over the decoded bytes. */
  lemma RecipeDecides(img: Image, z: ZMap, x: Extent, y: Extent)
    requires SameKey(x, y) && Recipe(z, x) == Recipe(z, y)
    ensures DecodeExtent(img, z, x) == DecodeExtent(img, z, y)
  {
    hide Decompress, HeaderAlgo, ZMap.TailInline, Image.BlockSize, Image.Read;
    if Recipe(z, x).Ok? {
      if NothingToDecode(z, x) {
        assert FrameBytes(img, z, x) == Ok([]) == FrameBytes(img, z, y);
        EmptyDecodes(img);
      } else {
        assert FrameBytes(img, z, x) == FrameBytes(img, z, y);
      }
    }
  }

  lemma EmptyDecodes(img: Image)
    ensures forall algo, prefix :: Decompress(img, algo, prefix, [], 0) == Ok([])
  {
  }

  /** The extent behind byte `off` goes through the cache. */
  ghost predicate Cached(idx: Index, lcs: nat, size: nat, off: nat)
    requires lcs > 0 && |idx| == DivCeil(size, lcs)
  {
    var x := ExtentAt(idx, lcs, size, off);
    x.Ok? && x.value.ctype != PLAIN && x.value.start <= off <= x.value.end
  }

  /** What a read at byte `off` asks the cache for. */
  ghost predicate RequestAt(img: Image, nid: nat, z: ZMap, off: nat, q: Request) {
    && Cached(ReadIndex(img.dev, z), z.LclusterSize(), z.size, off)
    && var x := ExtentOf(img, z, off).value;
       q == Request(KeyOf(nid, x), DecodeExtent(img, z, x))
  }

  /** Everything reads of one inode can ask for. */
  ghost function RequestsOf(img: Image, nid: nat, z: ZMap): iset<Request> {
    iset off: nat, q: Request | RequestAt(img, nid, z, off, q) :: q
  }

  /** Any sequence of reads of the inode, through an empty cache, gives what it would without. */
  ghost predicate RunsAgree(img: Image, nid: nat, z: ZMap, capacity: nat, limit: nat) {
    forall qs: seq<Request> :: (forall q :: q in qs ==> q in RequestsOf(img, nid, z)) ==>
      ServeAll([], capacity, limit, qs) == Uncached(qs)
  }

  /** Cached extents under one key that are short enough to be kept have one recipe. */
  ghost predicate KeysAgree(z: ZMap, idx: Index, limit: nat)
    requires |idx| == z.NLclusters()
  {
    forall off: nat, other: nat :: Cached(idx, z.LclusterSize(), z.size, off) && Cached(idx, z.LclusterSize(), z.size, other) ==>
      PairAgrees(z, idx, limit, off, other)
  }

  ghost predicate PairAgrees(z: ZMap, idx: Index, limit: nat, off: nat, other: nat)
    requires |idx| == z.NLclusters()
    requires Cached(idx, z.LclusterSize(), z.size, off) && Cached(idx, z.LclusterSize(), z.size, other)
  {
    var x, y := ExtentAt(idx, z.LclusterSize(), z.size, off).value, ExtentAt(idx, z.LclusterSize(), z.size, other).value;
    KeyOf(0, x) == KeyOf(0, y) && x.end - x.start <= Min(MAX_PCLUSTER_SIZE, limit) ==> Recipe(z, x) == Recipe(z, y)
  }

  lemma LastByEnd(idx: Index, lcs: nat, size: nat, off: nat)
    requires lcs > 0 && |idx| == DivCeil(size, lcs) && ExtentAt(idx, lcs, size, off).Ok?
    ensures ExtentAt(idx, lcs, size, off).value.isLast <==> ExtentAt(idx, lcs, size, off).value.end >= size
    ensures ExtentAt(idx, lcs, size, off).value.blockCount >= 1
  {
    hide DivCeil, FindHead, Scan, Reach, HasBit, StartOf;
  }

  lemma LongDecodesToNothing(img: Image, z: ZMap, x: Extent)
    requires x.end > x.start + MAX_PCLUSTER_SIZE
    ensures DecodeExtent(img, z, x) == Err
  {
    hide HeaderAlgo, FrameBytes, Decompress;
  }

  /** Agreeing keys are faithful, whatever codecs and devices do. */
  lemma AgreeingIsFaithful(img: Image, nid: nat, z: ZMap, limit: nat)
    requires KeysAgree(z, ReadIndex(img.dev, z), limit)
    ensures Faithful(RequestsOf(img, nid, z), limit)
  {
    hide ReadIndex, ExtentAt, DecodeExtent, Recipe, ZMap.LclusterSize, DivCeil;
    var idx, lcs := ReadIndex(img.dev, z), z.LclusterSize();
    forall p, q | p in RequestsOf(img, nid, z) && q in RequestsOf(img, nid, z) && p.key == q.key && p.Remembered(limit)
      ensures q.uncached == p.uncached
    {
      var off: nat :| RequestAt(img, nid, z, off, p);
      var other: nat :| RequestAt(img, nid, z, other, q);
      var x, y := ExtentOf(img, z, off).value, ExtentOf(img, z, other).value;
      DecodedLength(img, z, x);
      if x.end > x.start + MAX_PCLUSTER_SIZE {
        LongDecodesToNothing(img, z, x);
      }
      assert PairAgrees(z, idx, limit, off, other);
      LastByEnd(idx, lcs, z.size, off);
      LastByEnd(idx, lcs, z.size, other);
      RecipeDecides(img, z, x, y);
    }
  }

  lemma DecodedLength(img: Image, z: ZMap, x: Extent)
    ensures DecodeExtent(img, z, x).Ok? ==> x.start <= x.end && |DecodeExtent(img, z, x).value| == x.end - x.start
  {
  }

  // ----- The image that tells two recipes apart

  /** Decodes only what codec `algo` is given, with that flag and that many bytes. */
  function OneFrameOnly(algo: nat, prefix: bool, len: nat): (nat, bool, seq<byte>, nat) -> Result<seq<byte>> {
    (a, p, f, n) => if a == algo && p == prefix && |f| == len then Ok(Zeros(n)) else Err
  }

  /** Where the bytes of an extent end on the device. */
  function FrameEnd(img: Image, z: ZMap, x: Extent): nat {
    if InlineTail(z, x) then z.TailInline().value.0 + z.TailInline().value.1
    else (x.blkaddr + x.blockCount) * img.BlockSize()
  }

  function FrameLen(img: Image, z: ZMap, x: Extent): nat {
    if InlineTail(z, x) then z.TailInline().value.1 else x.blockCount * img.BlockSize()
  }

  lemma FrameIsWhole(img: Image, z: ZMap, x: Extent)
    requires |img.dev| >= FrameEnd(img, z, x)
    ensures FrameBytes(img, z, x).Ok? && |FrameBytes(img, z, x).value| == FrameLen(img, z, x)
  {
    hide ZMap.TailInline, Image.BlockSize;
    Distribute(x.blkaddr, x.blockCount, img.BlockSize());
  }

  lemma LongerFrame(a: nat, b: nat, d: nat)
    requires d > 0 && a != b
    ensures a * d != b * d
  {
    if a < b {
      MulMono(a + 1, b, d);
    } else {
      MulMono(b + 1, a, d);
    }
  }

  /** On such an image the one extent decodes, the other does not. */
  lemma RecipesTold(img: Image, z: ZMap, x: Extent, y: Extent)
    requires SameKey(x, y) && x.blockCount >= 1 && y.blockCount >= 1 && x.start <= x.end <= x.start + MAX_PCLUSTER_SIZE
    requires Recipe(z, x).Ok? && Recipe(z, x) != Recipe(z, y) && !img.zeroPadding
    requires |img.dev| >= FrameEnd(img, z, x) && |img.dev| >= FrameEnd(img, z, y)
    requires img.codec == OneFrameOnly(HeaderAlgo(z, x.ctype).value, x.partialRef, FrameLen(img, z, x))
    ensures DecodeExtent(img, z, x).Ok? && DecodeExtent(img, z, y) == Err
  {
    hide HeaderAlgo, ZMap.TailInline, FrameBytes, FrameEnd, Image.BlockSize;
    FrameIsWhole(img, z, x);
    FrameIsWhole(img, z, y);
    MulMono(1, x.blockCount, img.BlockSize());
    MulMono(1, y.blockCount, img.BlockSize());
    if x.blockCount != y.blockCount {
      LongerFrame(x.blockCount, y.blockCount, img.BlockSize());
    }
    EmptyDecodes(img);
  }

  // ----- More device behind the index

  /** A device that goes on further reads the same index, if it was readable. */
  lemma ExtendKeepsIndex(dev: seq<byte>, more: seq<byte>, z: ZMap)
    requires forall i :: 0 <= i < z.NLclusters() ==> ReadLcluster(dev, z, i).Ok?
    ensures ReadIndex(dev + more, z) == ReadIndex(dev, z)
  {
    hide ReadLcluster, ZMap.NLclusters;
    forall i | 0 <= i < z.NLclusters()
      ensures ReadLcluster(dev + more, z, i) == ReadLcluster(dev, z, i)
    {
      ExtendKeepsEntry(dev, more, z, i);
    }
  }

  lemma ExtendKeepsEntry(dev: seq<byte>, more: seq<byte>, z: ZMap, i: nat)
    requires ReadLcluster(dev, z, i).Ok?
    ensures ReadLcluster(dev + more, z, i) == ReadLcluster(dev, z, i)
  {
    hide ReadAt, ReadFromPack, LocateCompactPack, LE, HasCblkcnt, ZMap.NLclusters, ZMap.BigPcluster, ZMap.Lobits;
    if z.legacy {
      ExtendKeepsRead(dev, more, z.indexStart + i * LCLUSTER_INDEX_SIZE, 8);
    } else {
      var loc := LocateCompactPack(z.regions, i);
      ExtendKeepsRead(dev, more, loc.offset, loc.shape.packBytes);
    }
  }

  lemma ExtendKeepsRead(dev: seq<byte>, more: seq<byte>, off: nat, len: nat)
    ensures ReadAt(dev, off, len).Ok? ==> ReadAt(dev + more, off, len) == ReadAt(dev, off, len)
  {
    if off + len <= |dev| {
      assert (dev + more)[off..off + len] == dev[off..off + len];
    }
  }

  /** The image with the same index that tells `x` from `y`. */
  function Telling(img: Image, z: ZMap, x: Extent, y: Extent): Image
    requires HeaderAlgo(z, x.ctype).Ok?
  {
    img.(dev := img.dev + Zeros(FrameEnd(img, z, x) + FrameEnd(img, z, y)), zeroPadding := false,
         codec := OneFrameOnly(HeaderAlgo(z, x.ctype).value, x.partialRef, FrameLen(img, z, x)))
  }

  /** Same index; what follows it on the device, and what the codecs do, is anything. */
  ghost predicate SameIndex(img: Image, other: Image, z: ZMap) {
    ReadIndex(other.dev, z) == ReadIndex(img.dev, z)
  }

  /** Two reads with one key and two recipes: on some device the second is served the first one's bytes. */
  lemma ClashShows(img: Image, nid: nat, z: ZMap, capacity: nat, limit: nat, off: nat, other: nat)
    returns (clash: Image, p: Request, q: Request)
    requires capacity > 0 && forall i :: 0 <= i < z.NLclusters() ==> ReadLcluster(img.dev, z, i).Ok?
    requires Cached(ReadIndex(img.dev, z), z.LclusterSize(), z.size, off) && Cached(ReadIndex(img.dev, z), z.LclusterSize(), z.size, other)
    requires var x, y := ExtentOf(img, z, off).value, ExtentOf(img, z, other).value;
             && KeyOf(0, x) == KeyOf(0, y) && x.end - x.start <= Min(MAX_PCLUSTER_SIZE, limit)
             && Recipe(z, x) != Recipe(z, y) && Recipe(z, x).Ok?
    ensures SameIndex(img, clash, z) && p in RequestsOf(clash, nid, z) && q in RequestsOf(clash, nid, z)
    ensures q.uncached == Err && ServeAll([], capacity, limit, [p, q]) == [p.uncached, p.uncached] && p.uncached.Ok?
  {
    hide ReadIndex, ExtentAt, DecodeExtent, Recipe, ZMap.LclusterSize, DivCeil, FrameEnd, FrameLen, HeaderAlgo, ReadLcluster;
    var x, y := ExtentOf(img, z, off).value, ExtentOf(img, z, other).value;
    RecipeHasAlgo(z, x);
    clash := Telling(img, z, x, y);
    ExtendKeepsIndex(img.dev, Zeros(FrameEnd(img, z, x) + FrameEnd(img, z, y)), z);
    SameFrames(img, clash, z, x);
    SameFrames(img, clash, z, y);
    LastByEnd(ReadIndex(img.dev, z), z.LclusterSize(), z.size, off);
    LastByEnd(ReadIndex(img.dev, z), z.LclusterSize(), z.size, other);
    RecipesTold(clash, z, x, y);
    p := Request(KeyOf(nid, x), DecodeExtent(clash, z, x));
    q := Request(KeyOf(nid, y), DecodeExtent(clash, z, y));
    assert RequestAt(clash, nid, z, off, p) && RequestAt(clash, nid, z, other, q);
    DecodedLength(clash, z, x);
    SecondIsServedFirst(capacity, limit, p, q);
  }

  lemma RecipeHasAlgo(z: ZMap, x: Extent)
    ensures Recipe(z, x).Ok? ==> HeaderAlgo(z, x.ctype).Ok?
  {
  }

  lemma SameFrames(img: Image, other: Image, z: ZMap, x: Extent)
    requires other.blkszbits == img.blkszbits
    ensures FrameEnd(other, z, x) == FrameEnd(img, z, x) && FrameLen(other, z, x) == FrameLen(img, z, x)
  {
    hide ZMap.TailInline;
  }

  /**
   Cached reads of an inode equal uncached ones, over all runs, all codecs and all devices
   that hold its index, exactly when cached extents of one key have one recipe.
   */
  lemma CachedReadsAgreeIff(img: Image, nid: nat, z: ZMap, capacity: nat, limit: nat)
    requires capacity > 0 && forall i :: 0 <= i < z.NLclusters() ==> ReadLcluster(img.dev, z, i).Ok?
    ensures (forall other: Image :: SameIndex(img, other, z) ==> RunsAgree(other, nid, z, capacity, limit))
            <==> KeysAgree(z, ReadIndex(img.dev, z), limit)
  {
    hide ReadIndex, ReadLcluster, RequestsOf, Cached, DivCeil, ZMap.LclusterSize, Recipe, ExtentAt, Faithful, Uncached, ServeAll;
    var idx := ReadIndex(img.dev, z);
    if KeysAgree(z, idx, limit) {
      forall other: Image | SameIndex(img, other, z)
        ensures RunsAgree(other, nid, z, capacity, limit)
      {
        AgreeingIsFaithful(other, nid, z, limit);
        CachedEqualsUncachedIff(RequestsOf(other, nid, z), capacity, limit);
      }
    } else {
      var off: nat, other: nat :| Cached(idx, z.LclusterSize(), z.size, off) && Cached(idx, z.LclusterSize(), z.size, other)
                                  && !PairAgrees(z, idx, limit, off, other);
      DisagreeingPair(img, nid, z, capacity, limit, off, other);
    }
  }

  lemma DisagreeingPair(img: Image, nid: nat, z: ZMap, capacity: nat, limit: nat, off: nat, other: nat)
    requires capacity > 0 && forall i :: 0 <= i < z.NLclusters() ==> ReadLcluster(img.dev, z, i).Ok?
    requires Cached(ReadIndex(img.dev, z), z.LclusterSize(), z.size, off) && Cached(ReadIndex(img.dev, z), z.LclusterSize(), z.size, other)
    requires !PairAgrees(z, ReadIndex(img.dev, z), limit, off, other)
    ensures exists clash: Image :: SameIndex(img, clash, z) && !RunsAgree(clash, nid, z, capacity, limit)
  {
    hide ReadIndex, ReadLcluster, RequestsOf, ZMap.NLclusters, ZMap.LclusterSize, Recipe, ExtentAt, ServeAll;
    var clash: Image, p: Request, q: Request;
    if Recipe(z, ExtentOf(img, z, off).value).Ok? {
      clash, p, q := ClashShows(img, nid, z, capacity, limit, off, other);
    } else {
      clash, p, q := ClashShows(img, nid, z, capacity, limit, other, off);
    }
    assert Uncached([p, q])[1] == q.uncached;
    assert forall r :: r in [p, q] ==> r in RequestsOf(clash, nid, z);
    assert ServeAll([], capacity, limit, [p, q]) != Uncached([p, q]);
  }

  // ----- Bounded indexes agree, others need not

  /** No head outside its lcluster, no disagreement. */
  lemma BoundedKeysAgree(z: ZMap, idx: Index, limit: nat)
    requires |idx| == z.NLclusters() && BoundedIndex(idx, z.LclusterSize())
    ensures KeysAgree(z, idx, limit)
  {
    hide ExtentAt, BoundedIndex, Recipe, ZMap.LclusterSize, DivCeil;
    forall off: nat, other: nat | Cached(idx, z.LclusterSize(), z.size, off) && Cached(idx, z.LclusterSize(), z.size, other)
      ensures PairAgrees(z, idx, limit, off, other)
    {
      if ExtentAt(idx, z.LclusterSize(), z.size, off).value.start == ExtentAt(idx, z.LclusterSize(), z.size, other).value.start {
        StartDeterminesExtent(idx, z.LclusterSize(), z.size, off, other);
      }
    }
  }

  /** The clashing index as a legacy index holds it. */
  function ClashingEntries(lcs: nat, blk: nat): seq<LegacyEntry> {
    [LegacyEntry(HEAD2, 2 * lcs, blk), LegacyEntry(HEAD1, 3 * lcs, blk), LegacyEntry(HEAD1, 0, blk),
     LegacyEntry(NONHEAD, 0, 3), LegacyEntry(HEAD1, 0, blk)]
  }

  /** Forty bytes of a device are enough for it. */
  lemma ClashIsOnDisk(dev: seq<byte>, z: ZMap, lcs: nat, blk: nat)
    requires z.legacy && !z.BigPcluster() && z.NLclusters() == 5 && 3 * lcs <= U16_MAX && blk <= U32_MAX
    requires ReadAt(dev, z.indexStart, 40) == Ok(LegacyBytes(ClashingEntries(lcs, blk)))
    ensures ReadIndex(dev, z) == ClashingIndex(lcs, blk)
  {
    hide LegacyBytes, ReadLclusterLegacy, ReadAt, ZMap.BigPcluster, ZMap.NLclusters;
    var es := ClashingEntries(lcs, blk);
    forall i | 0 <= i < 5
      ensures ReadLcluster(dev, z, i) == Ok(AsRead(es[i]))
    {
      LegacyIndexReadsBack(dev, z.indexStart, es, i);
    }
  }

  lemma ClashIsCached(lcs: nat, blk: nat)
    requires lcs > 0
    ensures |ClashingIndex(lcs, blk)| == DivCeil(5 * lcs, lcs)
    ensures Cached(ClashingIndex(lcs, blk), lcs, 5 * lcs, 2 * lcs) && Cached(ClashingIndex(lcs, blk), lcs, 5 * lcs, 3 * lcs)
  {
    hide DivCeil, ExtentAt, ClashingIndex;
    UnboundedKeysClash(lcs, blk);
  }

  /** Two reads of that index, on some device and with some codec: the second gets bytes where there are none for it. */
  lemma ClashingRun(img: Image, nid: nat, z: ZMap, capacity: nat, limit: nat, lcs: nat, blk: nat)
    returns (clash: Image, p: Request, q: Request)
    requires capacity > 0 && lcs > 0 && 2 * lcs <= Min(MAX_PCLUSTER_SIZE, limit)
    requires ReadIndex(img.dev, z) == ClashingIndex(lcs, blk) && z.LclusterSize() == lcs && z.size == 5 * lcs
    requires HeaderAlgo(z, HEAD1) != HeaderAlgo(z, HEAD2)
    ensures SameIndex(img, clash, z) && p in RequestsOf(clash, nid, z) && q in RequestsOf(clash, nid, z)
    ensures ServeAll([], capacity, limit, [p, q]) == [p.uncached, p.uncached] && p.uncached.Ok? && q.uncached == Err
  {
    hide ReadIndex, ExtentAt, ReadLcluster, ZMap.LclusterSize, DivCeil, ClashingIndex, RequestsOf, Cached, HeaderAlgo;
    UnboundedKeysClash(lcs, blk);
    ClashIsCached(lcs, blk);
    ClashReadable(img.dev, z, lcs, blk);
    RecipesDiffer(z, ExtentOf(img, z, 2 * lcs).value, ExtentOf(img, z, 3 * lcs).value);
    if HeaderAlgo(z, HEAD1).Ok? {
      clash, p, q := ClashShows(img, nid, z, capacity, limit, 2 * lcs, 3 * lcs);
    } else {
      clash, p, q := ClashShows(img, nid, z, capacity, limit, 3 * lcs, 2 * lcs);
    }
  }

  lemma RecipesDiffer(z: ZMap, x: Extent, y: Extent)
    requires x.start < x.end && y.start < y.end && HeaderAlgo(z, x.ctype) != HeaderAlgo(z, y.ctype)
    ensures Recipe(z, x) != Recipe(z, y)
    ensures Recipe(z, x).Ok? <==> HeaderAlgo(z, x.ctype).Ok?
    ensures Recipe(z, y).Ok? <==> HeaderAlgo(z, y.ctype).Ok?
  {
    hide HeaderAlgo, InlineTail;
  }

  lemma ClashReadable(dev: seq<byte>, z: ZMap, lcs: nat, blk: nat)
    requires ReadIndex(dev, z) == ClashingIndex(lcs, blk)
    ensures forall i :: 0 <= i < z.NLclusters() ==> ReadLcluster(dev, z, i).Ok?
  {
    hide ReadLcluster, ZMap.NLclusters;
  }
}
