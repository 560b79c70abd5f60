/**
 What the writer puts down, the reader gives back: planner, trailer, index, block
 placement and padding on one side, map, extents, decoding and the fill loop on the other.
 */
module WriteThenRead {
  import opened Basics
  import opened Bits
  import opened CacheKeys
  import opened CompactPack
  import opened CompressedContent
  import opened ExtentMap
  import opened FileContent
  import opened FragmentWalk
  import opened Images
  import opened PlanIndex
  import opened Planner
  import opened ReadPath
  import opened ScanReach
  import opened Trailer
  import opened TrailerReadBack
  import opened ZMapReader

  /**
   The codec undoes the compressor on every source the planner would compress, and its
   frames do not start with a zero byte. LZ4 frames sit at the end of their block; the
   other codecs must cope with the zeros behind theirs.
   */
  ghost predicate LawfulCodec(img: Image, c: Config) {
    forall x: seq<byte>, pad: nat :: c.Fits(x) && (pad == 0 || c.algo != Lz4) ==>
      && c.compress(x) != [] && c.compress(x)[0] != 0
      && img.codec(AlgorithmId(c.algo), false, c.compress(x) + Zeros(pad), |x|) == Ok(x)
  }

  /** The codec does not make a source of part of its frame. */
  ghost predicate RefusesCutFrames(img: Image, c: Config) {
    forall x: seq<byte>, m: nat :: c.Fits(x) && m < |c.compress(x)| ==>
      img.codec(AlgorithmId(c.algo), false, c.compress(x)[..m], |x|) != Ok(x)
  }

  /** The least codec there is: a run is its byte, anything else does not shrink. */
  function SqueezeRun(x: seq<byte>): seq<byte> {
    if |x| > 2 && (forall i :: 0 <= i < |x| ==> x[i] == x[0]) then [1, x[0]] else [1] + x
  }

  function UnsqueezeRun(algo: nat, prefix: bool, frame: seq<byte>, n: nat): Result<seq<byte>> {
    if |frame| < 2 then Err else Ok(seq(n, i => frame[1]))
  }

  lemma RunsAreLawful(img: Image, c: Config, x: seq<byte>, pad: nat)
    requires img.codec == UnsqueezeRun && c.compress == SqueezeRun && c.Fits(x)
    ensures c.compress(x) != [] && c.compress(x)[0] != 0
    ensures img.codec(AlgorithmId(c.algo), false, c.compress(x) + Zeros(pad), |x|) == Ok(x)
  {
    assert SqueezeRun(x) == [1, x[0]];
    var frame := SqueezeRun(x) + Zeros(pad);
    assert UnsqueezeRun(AlgorithmId(c.algo), false, frame, |x|).value == x;
  }

  /** Lawful codecs exist, for every algorithm and block size, that compress something. */
  lemma LawfulCodecsExist(img: Image, c: Config, run: seq<byte>)
    requires |run| > 2 && (forall i :: 0 <= i < |run| ==> run[i] == run[0]) && c.Budget() >= 2
    requires img.codec == UnsqueezeRun && c.compress == SqueezeRun
    ensures LawfulCodec(img, c) && RefusesCutFrames(img, c) && c.Fits(run)
  {
    forall x: seq<byte> | c.Fits(x)
      ensures c.compress(x) != [] && c.compress(x)[0] != 0
    {
      RunsAreLawful(img, c, x, 0);
    }
    forall x: seq<byte>, pad: nat | c.Fits(x) && (pad == 0 || c.algo != Lz4)
      ensures img.codec(AlgorithmId(c.algo), false, c.compress(x) + Zeros(pad), |x|) == Ok(x)
    {
      RunsAreLawful(img, c, x, pad);
    }
    assert SqueezeRun(run) == [1, run[0]];
    forall x: seq<byte>, m: nat | c.Fits(x) && m < |c.compress(x)|
      ensures img.codec(AlgorithmId(c.algo), false, c.compress(x)[..m], |x|) != Ok(x)
    {
      assert SqueezeRun(x) == [1, x[0]];
    }
  }

  /** The last pcluster's bytes are inlined, or nothing is. */
  ghost predicate InlineIsLast(t: TrailerPlan, plan: Plan) {
    t.inline.Some? ==>
      && plan.pclusters != [] && t.inline.value == plan.pclusters[|plan.pclusters| - 1].rawCompressed
      && |t.inline.value| <= U16_MAX
  }

  predicate IsInlined(t: TrailerPlan, plan: Plan, k: nat) {
    t.inline.Some? && k + 1 == |plan.pclusters|
  }

  /** Every pcluster that has blocks lies in them. */
  ghost predicate BlocksOnDevice(img: Image, t: TrailerPlan, c: Config, plan: Plan, first: nat) {
    forall k :: 0 <= k < |plan.pclusters| && !IsInlined(t, plan, k) ==>
      ReadAt(img.dev, AddressAt(c, first, k) * img.BlockSize(), c.Budget()) == Ok(plan.pclusters[k].blockBytes)
  }

  /** An inode of the image, and the file it was written from. */
  ghost predicate WrittenFile(img: Image, inode: Inode, t: TrailerPlan, c: Config, src: seq<byte>, plan: Plan, first: nat) {
    && Carries(t, c, src, plan, first) && InlineIsLast(t, plan)
    && c.blockSize == img.BlockSize() && t.blkszbits == img.blkszbits
    && c.lclusterSize == Pow2(t.blkszbits + t.lclusterbits)
    && inode.size == |src|
    && inode.layout == (if t.format == Legacy then CompressionLegacy else Compression)
    && OnDevice(img.dev, t, img.BodyEnd(inode))
    && BlocksOnDevice(img, t, c, plan, first)
    && img.zeroPadding && LawfulCodec(img, c)
  }

  /**
   The frame of a compressed pcluster lies in the first of its blocks, which is all a reader
   takes: LZ4 frames lie at the end of the last block, others at the start of the first.
   */
  predicate InFirstBlock(c: Config, p: PclusterPlan) {
    c.targetBlocks == 1 || (c.algo != Lz4 && |p.rawCompressed| <= c.blockSize)
  }

  ghost predicate FirstBlocksHold(t: TrailerPlan, c: Config, plan: Plan) {
    forall k :: 0 <= k < |plan.pclusters| && plan.pclusters[k].ctype == HEAD1 && !IsInlined(t, plan, k) ==>
      InFirstBlock(c, plan.pclusters[k])
  }

  /** What the writer needs and does not check. */
  ghost predicate SideConditions(t: TrailerPlan, c: Config, size: nat, plan: Plan, bodyEnd: nat) {
    && t.Valid() && |t.entries| <= U32_MAX
    && IndexSurvives(t, bodyEnd)
    && ShortPclusters(c, size, plan)
    && FirstBlocksHold(t, c, plan)
  }

  // ----- The index

  lemma EntriesArePlanned(t: TrailerPlan, c: Config, src: seq<byte>, plan: Plan, first: nat)
    requires Carries(t, c, src, plan, first)
    ensures PlannedEntries(t)
  {
    hide Carries;
    CarriesBasics(t, c, src, plan, first);
    forall i | 0 <= i < |t.entries|
      ensures t.entries[i].ctype == PLAIN || t.entries[i].ctype == HEAD1 || t.entries[i].ctype == NONHEAD
      ensures t.entries[i].ctype != NONHEAD ==> t.entries[i].ofsOrDelta0 == 0 && t.AddrOf(i) <= U32_MAX
      ensures t.entries[i].ctype == NONHEAD ==> t.entries[i].ofsOrDelta0 <= U16_MAX
    {
      PlannedEntry(t, c, src, plan, first, i);
    }
  }

  lemma PlannedEntry(t: TrailerPlan, c: Config, src: seq<byte>, plan: Plan, first: nat, i: nat)
    requires Carries(t, c, src, plan, first) && i < |t.entries|
    ensures var e := t.entries[i];
            && (e.ctype == PLAIN || e.ctype == HEAD1 || e.ctype == NONHEAD)
            && (e.ctype != NONHEAD ==> e.ofsOrDelta0 == 0 && t.AddrOf(i) <= U32_MAX)
            && (e.ctype == NONHEAD ==> e.ofsOrDelta0 <= U16_MAX)
  {
    hide Maximal, Contiguous, Planner.NLclusters;
    var k := OwnerOf(c, src, plan, i);
    HeadWithin(c, src, plan, k);
    var p := plan.pclusters[k];
    assert GoodPcluster(c, src, p);
    assert EntriesOf(plan.entries, p.head, p.nLclusters, p.ctype, k);
  }

  lemma WrittenIsSized(img: Image, inode: Inode, t: TrailerPlan, c: Config, src: seq<byte>, plan: Plan, first: nat)
    requires WrittenFile(img, inode, t, c, src, plan, first) && |t.entries| <= U32_MAX
    ensures Sized(t, |src|)
  {
    hide DivCeil, Pow2, OnDevice, LawfulCodec, BlocksOnDevice, Image.BodyEnd, GoodPcluster, Maximal, Contiguous, EntriesOf;
  }

  /** The reader opens the writer's map. */
  lemma MapReadsBack(img: Image, inode: Inode, t: TrailerPlan, bodyEnd: nat)
    requires Sound(t, bodyEnd, inode.size) && OnDevice(img.dev, t, bodyEnd) && bodyEnd == img.BodyEnd(inode)
    requires t.blkszbits == img.blkszbits
    requires inode.layout == if t.format == Legacy then CompressionLegacy else Compression
    ensures inode.layout.Compressed() && img.ZMapFor(inode) == Ok(Some(WrittenMap(t, bodyEnd, inode.size)))
  {
    hide OnDevice, Image.BodyEnd, Sound, OpenZMap, WrittenMap;
    HeaderOpens(img.dev, t, bodyEnd, inode.size);
  }

  lemma IndexOfMap(dev: seq<byte>, t: TrailerPlan, bodyEnd: nat, size: nat)
    requires Sound(t, bodyEnd, size) && AllRead(dev, WrittenMap(t, bodyEnd, size), t)
    ensures IndexOf(ReadIndex(dev, WrittenMap(t, bodyEnd, size)), t)
  {
    hide ReadLcluster, WrittenMap, EntryAsRead, ReadIndex, ZMap.NLclusters, Pow2, DivCeil;
    MapFacts(t, bodyEnd, size);
  }

  /** The reader opens the writer's map, and reads its index. */
  lemma IndexReadsBack(img: Image, inode: Inode, t: TrailerPlan, c: Config, src: seq<byte>, plan: Plan, first: nat) returns (z: ZMap)
    requires WrittenFile(img, inode, t, c, src, plan, first)
    requires t.Valid() && |t.entries| <= U32_MAX && IndexSurvives(t, img.BodyEnd(inode))
    ensures Opened(img, inode, t, c, src, plan, first, z) && !z.HasFragment()
    ensures inode.layout.Compressed() && img.ZMapFor(inode) == Ok(Some(z))
  {
    hide *;
    var bodyEnd := img.BodyEnd(inode);
    z := WrittenMap(t, bodyEnd, |src|);
    WrittenBasics(img, inode, t, c, src, plan, first);
    WrittenIsSized(img, inode, t, c, src, plan, first);
    SurvivorIsSound(t, bodyEnd, |src|);
    EntriesArePlanned(t, c, src, plan, first);
    MapReadsBack(img, inode, t, bodyEnd);
    MapFacts(t, bodyEnd, |src|);
    MapSize(t, bodyEnd, |src|);
    PlanEntriesWellFormed(t, c, src, plan, first);
    EntriesReadBack(img.dev, t, bodyEnd, |src|);
    IndexOfMap(img.dev, t, bodyEnd, |src|);
    OpenedIf(img, inode, t, c, src, plan, first, z);
  }

  lemma SurvivorIsSound(t: TrailerPlan, bodyEnd: nat, size: nat)
    requires Sized(t, size) && IndexSurvives(t, bodyEnd)
    ensures Sound(t, bodyEnd, size)
  {
    hide Sized;
  }

  lemma OpenedIf(img: Image, inode: Inode, t: TrailerPlan, c: Config, src: seq<byte>, plan: Plan, first: nat, z: ZMap)
    requires WrittenFile(img, inode, t, c, src, plan, first)
    requires Sound(t, img.BodyEnd(inode), |src|) && z == WrittenMap(t, img.BodyEnd(inode), |src|)
    requires z.size == |src| && z.LclusterSize() == c.lclusterSize && IndexOf(ReadIndex(img.dev, z), t)
    ensures Opened(img, inode, t, c, src, plan, first, z)
  {
    hide WrittenFile, Sound, WrittenMap, IndexOf, ReadIndex, ZMap.LclusterSize, Image.BodyEnd;
  }

  lemma MapSize(t: TrailerPlan, bodyEnd: nat, size: nat)
    ensures WrittenMap(t, bodyEnd, size).size == size
  {
  }

  /** All that is known once the reader has opened the written file as `z`. */
  ghost predicate Opened(img: Image, inode: Inode, t: TrailerPlan, c: Config, src: seq<byte>, plan: Plan, first: nat, z: ZMap) {
    && WrittenFile(img, inode, t, c, src, plan, first)
    && Sound(t, img.BodyEnd(inode), |src|)
    && z == WrittenMap(t, img.BodyEnd(inode), |src|)
    && z.size == |src| && z.LclusterSize() == c.lclusterSize
    && IndexOf(ReadIndex(img.dev, z), t)
  }

  lemma OpenedBasics(img: Image, inode: Inode, t: TrailerPlan, c: Config, src: seq<byte>, plan: Plan, first: nat, z: ZMap)
    requires Opened(img, inode, t, c, src, plan, first, z)
    ensures Carries(t, c, src, plan, first) && IndexOf(ReadIndex(img.dev, z), t)
    ensures z.size == |src| && z.LclusterSize() == c.lclusterSize > 0
    ensures Sound(t, img.BodyEnd(inode), |src|) && z == WrittenMap(t, img.BodyEnd(inode), |src|)
    ensures WrittenFile(img, inode, t, c, src, plan, first)
  {
    hide Carries, IndexOf, WrittenFile, Sound, WrittenMap, ReadIndex, ZMap.LclusterSize, Image.BodyEnd;
    assert Carries(t, c, src, plan, first) by { WrittenBasics(img, inode, t, c, src, plan, first); }
    CarriesBasics(t, c, src, plan, first);
  }

  lemma WrittenBasics(img: Image, inode: Inode, t: TrailerPlan, c: Config, src: seq<byte>, plan: Plan, first: nat)
    requires WrittenFile(img, inode, t, c, src, plan, first)
    ensures Carries(t, c, src, plan, first) && inode.size == |src| && t.Valid()
    ensures LawfulCodec(img, c) && img.zeroPadding && c.blockSize == img.BlockSize()
    ensures InlineIsLast(t, plan) && BlocksOnDevice(img, t, c, plan, first) && OnDevice(img.dev, t, img.BodyEnd(inode))
    ensures t.blkszbits == img.blkszbits && c.lclusterSize == Pow2(t.blkszbits + t.lclusterbits)
    ensures inode.layout == if t.format == Legacy then CompressionLegacy else Compression
  {
    hide Carries, Image.BodyEnd, LawfulCodec, OnDevice, Pow2, InlineIsLast, BlocksOnDevice;
    CarriesBasics(t, c, src, plan, first);
  }

  // ----- One pcluster

  /** The part of the file pcluster `p` covers. */
  lemma SourceIs(c: Config, src: seq<byte>, p: PclusterPlan)
    requires p.head * c.lclusterSize < PclusterEnd(c, |src|, p)
    ensures Source(src, c.lclusterSize, p.head, p.nLclusters) == src[p.head * c.lclusterSize..PclusterEnd(c, |src|, p)]
  {
  }

  lemma DecompressIs(img: Image, algo: nat, input: seq<byte>, frame: seq<byte>, out: seq<byte>)
    requires img.zeroPadding && input != [] && StripLeadingPad(input) == Ok(frame)
    requires img.codec(algo, false, frame, |out|) == Ok(out)
    ensures Decompress(img, algo, false, input, |out|) == Ok(out)
  {
    hide StripLeadingPad;
  }

  /** A compressed frame in its padding decodes to its source. */
  lemma PaddedDecodes(img: Image, c: Config, source: seq<byte>, total: nat, block: seq<byte>)
    requires LawfulCodec(img, c) && img.zeroPadding && c.Fits(source)
    requires PadPclusterBlock(c.compress(source), total, HEAD1, c.algo) == Ok(block)
    ensures Decompress(img, AlgorithmId(c.algo), false, block, |source|) == Ok(source)
  {
    hide Config.Fits, LawfulCodec, Decompress, StripLeadingPad, AlgorithmId;
    var frame := c.compress(source);
    var pad: nat := total - |frame|;
    FrameStart(img, c, source, 0);
    assert frame + Zeros(0) == frame;
    if c.algo == Lz4 {
      StripUndoesPad(pad, frame);
      DecompressIs(img, AlgorithmId(c.algo), block, frame, source);
    } else {
      FrameStart(img, c, source, pad);
      assert Zeros(0) + (frame + Zeros(pad)) == frame + Zeros(pad) == block;
      StripUndoesPad(0, frame + Zeros(pad));
      DecompressIs(img, AlgorithmId(c.algo), block, block, source);
    }
  }

  /** So does the frame alone, which is the frame in no padding. */
  lemma BareDecodes(img: Image, c: Config, source: seq<byte>)
    requires LawfulCodec(img, c) && img.zeroPadding && c.Fits(source)
    ensures Decompress(img, AlgorithmId(c.algo), false, c.compress(source), |source|) == Ok(source)
  {
    hide Config.Fits, LawfulCodec, Decompress, AlgorithmId;
    var frame := c.compress(source);
    assert Zeros(0) + frame == frame == frame + Zeros(0);
    PaddedDecodes(img, c, source, |frame|, frame);
  }

  lemma FrameStart(img: Image, c: Config, x: seq<byte>, pad: nat)
    requires LawfulCodec(img, c) && c.Fits(x) && (pad == 0 || c.algo != Lz4)
    ensures c.compress(x) != [] && c.compress(x)[0] != 0
    ensures img.codec(AlgorithmId(c.algo), false, c.compress(x) + Zeros(pad), |x|) == Ok(x)
  {
    assert |Zeros(pad)| == pad;
  }

  /** Where the reader looks it finds `raw`, inlined, or `block`, the first of whose blocks it takes. */
  ghost predicate PayloadAt(img: Image, z: ZMap, blkaddr: nat, inlined: bool, raw: seq<byte>, block: seq<byte>) {
    if inlined then
      && z.TailInline().Some? && z.TailInline().value.1 == |raw|
      && ReadAt(img.dev, z.TailInline().value.0, |raw|) == Ok(raw)
    else
      && img.BlockSize() <= |block|
      && ReadAt(img.dev, blkaddr * img.BlockSize(), |block|) == Ok(block)
  }

  /** Its blocks, or its inlined bytes, hold the whole of a plain pcluster. */
  lemma PlainHolds(img: Image, z: ZMap, x: Extent, raw: seq<byte>, block: seq<byte>)
    requires x.ctype == PLAIN && x.blockCount == 1 && !z.Interlaced()
    requires PayloadAt(img, z, x.blkaddr, InlineTail(z, x), raw, block)
    requires x.start + |raw| == x.end && |raw| <= |block| && block == raw + Zeros(|block| - |raw|)
    ensures ExtentSlice(img, z, x, 0, |raw|) == Ok(raw)
  {
    hide Image.BlockSize, ZMap.TailInline, ZMap.Interlaced;
    if !InlineTail(z, x) {
      var at := x.blkaddr * img.BlockSize();
      assert img.dev[at..at + |raw|] == img.dev[at..at + |block|][..|raw|];
      assert block[..|raw|] == raw;
    }
  }

  /** What a compressed pcluster is decoded from: its inlined frame, or its first block. */
  lemma FrameIsFirstBlock(img: Image, z: ZMap, x: Extent, raw: seq<byte>, block: seq<byte>)
    requires x.blockCount == 1 && raw != [] && PayloadAt(img, z, x.blkaddr, InlineTail(z, x), raw, block)
    ensures !InlineTail(z, x) ==> img.BlockSize() <= |block|
    ensures FrameBytes(img, z, x) == Ok(if InlineTail(z, x) then raw else block[..img.BlockSize()])
  {
    hide Image.BlockSize, ZMap.TailInline;
    if !InlineTail(z, x) {
      var bs, at := img.BlockSize(), x.blkaddr * img.BlockSize();
      SliceSlice(img.dev, at, at + |block|, 0, bs);
      assert block[0..bs] == block[..bs];
    }
  }

  /** Its first block, or its inlined bytes, decode to the whole source of a compressed pcluster. */
  lemma CompressedHolds(img: Image, z: ZMap, c: Config, x: Extent, source: seq<byte>, block: seq<byte>)
    requires LawfulCodec(img, c) && img.zeroPadding && c.Fits(source)
    requires x.ctype == HEAD1 && x.blockCount == 1 && !x.partialRef && z.algorithmType == AlgorithmId(c.algo)
    requires PayloadAt(img, z, x.blkaddr, InlineTail(z, x), c.compress(source), block)
    requires !InlineTail(z, x) && img.BlockSize() <= |block| ==>
               PadPclusterBlock(c.compress(source), img.BlockSize(), HEAD1, c.algo) == Ok(block[..img.BlockSize()])
    requires x.start + |source| == x.end && |source| <= MAX_PCLUSTER_SIZE
    ensures ExtentSlice(img, z, x, 0, |source|) == Ok(source)
  {
    hide Image.BlockSize, ZMap.TailInline, Config.Fits, AlgorithmId, LawfulCodec, Decompress, PadPclusterBlock, FrameBytes;
    FrameStart(img, c, source, 0);
    FrameIsFirstBlock(img, z, x, c.compress(source), block);
    if InlineTail(z, x) {
      BareDecodes(img, c, source);
    } else {
      PaddedDecodes(img, c, source, img.BlockSize(), block[..img.BlockSize()]);
    }
    SmallId(c.algo);
    assert source[0..|source|] == source;
  }

  lemma SmallId(a: Algo)
    ensures AlgorithmId(a) % 16 == AlgorithmId(a) <= 3
  {
  }

  /** A frame that fits one block lies in it as if it were the only one. */
  lemma FirstBlockIsPadded(c: Config, p: PclusterPlan)
    requires c.Valid() && InFirstBlock(c, p) && PadPclusterBlock(p.rawCompressed, c.Budget(), HEAD1, c.algo) == Ok(p.blockBytes)
    ensures c.blockSize <= |p.blockBytes|
    ensures PadPclusterBlock(p.rawCompressed, c.blockSize, HEAD1, c.algo) == Ok(p.blockBytes[..c.blockSize])
  {
    var raw, bs := p.rawCompressed, c.blockSize;
    BlocksFit(c);
    if c.targetBlocks == 1 {
      assert p.blockBytes[..bs] == p.blockBytes;
    } else {
      assert (raw + Zeros(c.Budget() - |raw|))[..bs] == raw + Zeros(bs - |raw|);
    }
  }

  /** A pcluster is inlined exactly when the reader takes it for the inline tail. */
  lemma TailIsLast(t: TrailerPlan, c: Config, src: seq<byte>, plan: Plan, first: nat, idx: Index, z: ZMap, bodyEnd: nat, k: nat)
    requires Carries(t, c, src, plan, first) && IndexOf(idx, t) && k < |plan.pclusters|
    requires Sound(t, bodyEnd, |src|) && z == WrittenMap(t, bodyEnd, |src|)
    ensures InlineTail(z, ExtentOfPcluster(c, |src|, plan, first, k)) == IsInlined(t, plan, k)
  {
    hide Carries, IndexOf, Sound, WrittenMap, ZMap.TailInline, PclusterEnd, NextHead;
    MapFacts(t, bodyEnd, |src|);
    TrueEndOf(t, c, src, plan, first, idx, k);
    LastEnds(t, c, src, plan, first, k);
    CarriesBasics(t, c, src, plan, first);
    EndInside(c, |src|, plan.pclusters[k]);
    IndexSize(idx, t);
  }

  lemma IndexSize(idx: Index, t: TrailerPlan)
    requires IndexOf(idx, t)
    ensures |idx| == |t.entries|
  {
  }

  lemma EndInside(c: Config, size: nat, p: PclusterPlan)
    ensures PclusterEnd(c, size, p) <= size
  {
  }

  lemma LastEnds(t: TrailerPlan, c: Config, src: seq<byte>, plan: Plan, first: nat, k: nat)
    requires Carries(t, c, src, plan, first) && k < |plan.pclusters|
    ensures var p := plan.pclusters[k];
            p.head + p.nLclusters == |t.entries| <==> k + 1 == |plan.pclusters|
  {
    hide Maximal, EntriesOf, Planner.NLclusters;
    var p := plan.pclusters[k];
    if k + 1 < |plan.pclusters| {
      var q := plan.pclusters[k + 1];
      HeadWithin(c, src, plan, k + 1);
      EndsBehind(t, c, src, plan, first, k + 1);
      assert GoodPcluster(c, src, q);
    } else {
      assert plan.pclusters == plan.pclusters[..k + 1];
    }
  }

  /** The bytes the reader finds for pcluster `k`. */
  lemma PayloadOnDevice(img: Image, inode: Inode, t: TrailerPlan, c: Config, src: seq<byte>, plan: Plan, first: nat, z: ZMap, k: nat)
    requires Opened(img, inode, t, c, src, plan, first, z) && k < |plan.pclusters|
    ensures PayloadAt(img, z, AddressAt(c, first, k), IsInlined(t, plan, k), plan.pclusters[k].rawCompressed, plan.pclusters[k].blockBytes)
  {
    hide *;
    OpenedBasics(img, inode, t, c, src, plan, first, z);
    WrittenBasics(img, inode, t, c, src, plan, first);
    var bodyEnd := img.BodyEnd(inode);
    MapFacts(t, bodyEnd, |src|);
    TrailerParts(img.dev, t, bodyEnd);
    BlockLength(t, c, src, plan, first, k);
    PayloadCases(img, z, t, c, plan, first, k, IndexStart(t, bodyEnd) + |IndexPart(t, bodyEnd)|);
  }

  lemma PayloadCases(img: Image, z: ZMap, t: TrailerPlan, c: Config, plan: Plan, first: nat, k: nat, at: nat)
    requires InlineIsLast(t, plan) && BlocksOnDevice(img, t, c, plan, first) && k < |plan.pclusters|
    requires img.BlockSize() <= c.Budget() == |plan.pclusters[k].blockBytes|
    requires z.TailInline() == if t.inline.Some? then Some((at, |t.inline.value|)) else None
    requires ReadAt(img.dev, at, |t.InlineBytes()|) == Ok(t.InlineBytes())
    ensures PayloadAt(img, z, AddressAt(c, first, k), IsInlined(t, plan, k), plan.pclusters[k].rawCompressed, plan.pclusters[k].blockBytes)
  {
    hide ZMap.TailInline, ReadAt, Image.BlockSize, AddressAt, Config.Budget;
  }

  lemma GoodAt(t: TrailerPlan, c: Config, src: seq<byte>, plan: Plan, first: nat, k: nat)
    requires Carries(t, c, src, plan, first) && k < |plan.pclusters|
    ensures GoodPcluster(c, src, plan.pclusters[k]) && c.Valid()
  {
    hide GoodPcluster, Maximal, Contiguous, EntriesOf, Planner.NLclusters;
  }

  lemma BlockLength(t: TrailerPlan, c: Config, src: seq<byte>, plan: Plan, first: nat, k: nat)
    requires Carries(t, c, src, plan, first) && k < |plan.pclusters|
    ensures |plan.pclusters[k].blockBytes| == c.Budget() >= c.blockSize
  {
    hide Carries, Source, Config.Fits, Config.Budget;
    GoodAt(t, c, src, plan, first, k);
    BlocksFit(c);
  }

  /** Pcluster `k` reads back as its part of the file. */
  lemma PclusterHolds(img: Image, inode: Inode, t: TrailerPlan, c: Config, src: seq<byte>, plan: Plan, first: nat, z: ZMap, k: nat)
    requires Opened(img, inode, t, c, src, plan, first, z) && ShortPclusters(c, |src|, plan) && k < |plan.pclusters|
    requires plan.pclusters[k].ctype == HEAD1 && !IsInlined(t, plan, k) ==> InFirstBlock(c, plan.pclusters[k])
    ensures HoldsExtent(img, z, src, ExtentOfPcluster(c, |src|, plan, first, k))
  {
    hide *;
    OpenedBasics(img, inode, t, c, src, plan, first, z);
    WrittenBasics(img, inode, t, c, src, plan, first);
    var p, x := plan.pclusters[k], ExtentOfPcluster(c, |src|, plan, first, k);
    var source := Source(src, c.lclusterSize, p.head, p.nLclusters);
    TailIsLast(t, c, src, plan, first, ReadIndex(img.dev, z), z, img.BodyEnd(inode), k);
    PayloadOnDevice(img, inode, t, c, src, plan, first, z, k);
    TrueEndOf(t, c, src, plan, first, ReadIndex(img.dev, z), k);
    ExtentFields(c, src, plan, first, k);
    GoodCases(t, c, src, plan, first, k);
    MapFacts(t, img.BodyEnd(inode), |src|);
    MapAlgorithm(t, img.BodyEnd(inode), |src|);
    if p.ctype == PLAIN {
      PlainHolds(img, z, x, source, p.blockBytes);
    } else {
      ShortAt(c, src, plan, k);
      if !IsInlined(t, plan, k) {
        FirstBlockIsPadded(c, p);
      }
      CompressedHolds(img, z, c, x, source, p.blockBytes);
    }
    HoldsIfSliceIs(img, z, src, x, source);
  }

  lemma HoldsIfSliceIs(img: Image, z: ZMap, src: seq<byte>, x: Extent, source: seq<byte>)
    requires x.start <= x.end <= |src| && source == src[x.start..x.end] && x.blockCount == 1
    requires ExtentSlice(img, z, x, 0, |source|) == Ok(source)
    ensures HoldsExtent(img, z, src, x)
  {
    hide ExtentSlice;
  }

  lemma ExtentFields(c: Config, src: seq<byte>, plan: Plan, first: nat, k: nat)
    requires k < |plan.pclusters|
    requires plan.pclusters[k].head * c.lclusterSize < PclusterEnd(c, |src|, plan.pclusters[k])
    ensures var p, x := plan.pclusters[k], ExtentOfPcluster(c, |src|, plan, first, k);
            var source := Source(src, c.lclusterSize, p.head, p.nLclusters);
            && x.ctype == p.ctype && x.blockCount == 1 && x.blkaddr == AddressAt(c, first, k) && !x.partialRef
            && x.start <= x.end <= |src| && x.start + |source| == x.end && source == src[x.start..x.end]
  {
    hide Source;
    SourceIs(c, src, plan.pclusters[k]);
  }

  /** What the planner promises of pcluster `k`, case by case. */
  lemma GoodCases(t: TrailerPlan, c: Config, src: seq<byte>, plan: Plan, first: nat, k: nat)
    requires Carries(t, c, src, plan, first) && k < |plan.pclusters|
    ensures var p := plan.pclusters[k];
            var source := Source(src, c.lclusterSize, p.head, p.nLclusters);
            && c.Valid() && t.algo == c.algo
            && (p.ctype == PLAIN ==>
                  && p.rawCompressed == source && |source| <= |p.blockBytes|
                  && p.blockBytes == source + Zeros(|p.blockBytes| - |source|))
            && (p.ctype != PLAIN ==>
                  && p.ctype == HEAD1 && c.Fits(source) && p.rawCompressed == c.compress(source)
                  && PadPclusterBlock(c.compress(source), c.Budget(), HEAD1, c.algo) == Ok(p.blockBytes))
  {
    hide Source, Config.Fits;
    GoodAt(t, c, src, plan, first, k);
    if plan.pclusters[k].ctype == PLAIN {
      PlainBlock(c, plan.pclusters[k]);
    }
  }

  lemma ShortAt(c: Config, src: seq<byte>, plan: Plan, k: nat)
    requires ShortPclusters(c, |src|, plan) && k < |plan.pclusters| && plan.pclusters[k].ctype == HEAD1
    ensures |Source(src, c.lclusterSize, plan.pclusters[k].head, plan.pclusters[k].nLclusters)| <= MAX_PCLUSTER_SIZE
  {
    var p := plan.pclusters[k];
    MulMono(p.head, p.head + p.nLclusters, c.lclusterSize);
  }

  lemma MapAlgorithm(t: TrailerPlan, bodyEnd: nat, size: nat)
    ensures WrittenMap(t, bodyEnd, size).algorithmType == AlgorithmId(t.algo)
  {
  }

  lemma PlainBlock(c: Config, p: PclusterPlan)
    requires p.ctype == PLAIN && PadPclusterBlock(p.rawCompressed, c.Budget(), p.ctype, c.algo) == Ok(p.blockBytes)
    ensures |p.rawCompressed| <= c.Budget() && p.blockBytes == p.rawCompressed + Zeros(c.Budget() - |p.rawCompressed|)
  {
  }

  // ----- The file

  /** Every extent of the written file holds its part of the source. */
  lemma EveryExtentHolds(img: Image, inode: Inode, t: TrailerPlan, c: Config, src: seq<byte>, plan: Plan, first: nat, z: ZMap)
    requires Opened(img, inode, t, c, src, plan, first, z) && ShortPclusters(c, |src|, plan) && FirstBlocksHold(t, c, plan)
    ensures ExtentsHold(img, z, src)
  {
    hide Opened, Carries, Sound, WrittenMap, IndexOf, ReadIndex, HoldsExtent, ExtentAt, WrittenFile, DivCeil, ExtentOfHead;
    hide ExtentOfPcluster, ZMap.LclusterSize, Image.BodyEnd, ShortPclusters, InFirstBlock;
    OpenedBasics(img, inode, t, c, src, plan, first, z);
    var idx := ReadIndex(img.dev, z);
    SizeOf(t, c, src, plan, first, idx);
    forall off: nat | off < z.size && ExtentOf(img, z, off).Ok?
      ensures HoldsExtent(img, z, src, ExtentOf(img, z, off).value)
    {
      var h := HeadAt(idx, c.lclusterSize, |src|, off);
      var k := EntryOf(t, c, src, plan, first, idx, h);
      HeadExtent(t, c, src, plan, first, idx, k);
      PclusterHolds(img, inode, t, c, src, plan, first, z, k);
    }
  }

  lemma SideParts(t: TrailerPlan, c: Config, size: nat, plan: Plan, bodyEnd: nat)
    requires SideConditions(t, c, size, plan, bodyEnd)
    ensures t.Valid() && |t.entries| <= U32_MAX && IndexSurvives(t, bodyEnd) && ShortPclusters(c, size, plan) && FirstBlocksHold(t, c, plan)
  {
    hide IndexSurvives, ShortPclusters, FirstBlocksHold;
  }

  lemma IsReached(img: Image, z: ZMap, c: Config, src: seq<byte>)
    requires z.size == |src| && z.LclusterSize() == c.lclusterSize
    requires c.lclusterSize > 0 && AllInReach(ReadIndex(img.dev, z), c.lclusterSize, |src|)
    ensures Reached(img, z)
  {
    hide ReadIndex, AllInReach, ZMap.LclusterSize;
  }

  /** Opened, the written file is partitioned, if its pclusters are short. */
  lemma OpenedIsPartitioned(img: Image, inode: Inode, t: TrailerPlan, c: Config, src: seq<byte>, plan: Plan, first: nat, z: ZMap)
    requires Opened(img, inode, t, c, src, plan, first, z) && !z.HasFragment() && ShortPclusters(c, |src|, plan)
    ensures Partitioned(img, z) && FragmentStart(img, z) == z.size == |src|
  {
    hide *;
    OpenedBasics(img, inode, t, c, src, plan, first, z);
    PlanIndexIsWellFormed(t, c, src, plan, first, ReadIndex(img.dev, z));
    PlanInReach(t, c, src, plan, first, ReadIndex(img.dev, z));
    IsReached(img, z, c, src);
    WellFormedIsPartitioned(img, z);
  }

  /**
   For every source, the file the writer puts down reads back as that source: any range of
   it, in both index formats, compressed and plain pclusters alike, with the last one
   inlined or not, whatever the number of blocks to a pcluster.
   */
  lemma WrittenReadsBack(img: Image, inode: Inode, t: TrailerPlan, c: Config, src: seq<byte>, plan: Plan, first: nat,
                      off: nat, n: nat, level: nat)
    requires WrittenFile(img, inode, t, c, src, plan, first)
    requires SideConditions(t, c, |src|, plan, img.BodyEnd(inode))
    requires off + n <= |src|
    ensures ReadFile(img, inode, off, n, level) == Ok(src[off..off + n])
  {
    hide *;
    SideParts(t, c, |src|, plan, img.BodyEnd(inode));
    var z := IndexReadsBack(img, inode, t, c, src, plan, first);
    OpenedIsPartitioned(img, inode, t, c, src, plan, first, z);
    WrittenBasics(img, inode, t, c, src, plan, first);
    EveryExtentHolds(img, inode, t, c, src, plan, first, z);
    FileReadsAs(img, inode, z, src, off, n, level);
  }

  // ----- What a pcluster may not be

  /** A compressed pcluster that decodes to too much is refused from its first byte. */
  lemma LongExtentUnfilled(img: Image, z: ZMap, h: nat, off: nat, room: nat)
    requires WfIndex(ReadIndex(img.dev, z), z.LclusterSize()) && IsHeadAt(ReadIndex(img.dev, z), h)
    requires ReadIndex(img.dev, z)[h].value.ctype != PLAIN && off == StartOf(ReadIndex(img.dev, z), z.LclusterSize(), h) < z.size
    requires TrueEnd(ReadIndex(img.dev, z), z.LclusterSize(), z.size, h) > off + MAX_PCLUSTER_SIZE
    ensures FillFromExtent(img, z, off, room) == Err
  {
    hide ReadIndex, WfIndex, ExtentAt, FillFrom, StartOf, TrueEnd, InReach, DivCeil, ZMap.LclusterSize, ZMap.Interlaced;
    var idx, lcs := ReadIndex(img.dev, z), z.LclusterSize();
    WfIsScannable(idx, lcs);
    HeadFindsItself(idx, lcs, z.size, h);
    BoundedScanIsEnough(idx, lcs, z.size, h);
    HeadType(idx, lcs, z.size, h);
    ExtentHasBlocks(idx, lcs, z.size, off);
    LongFillIsRefused(img, z, ExtentOfHead(idx, lcs, z.size, h).value, off, room);
  }

  lemma HeadType(idx: Index, lcs: nat, size: nat, h: nat)
    requires lcs > 0 && IsHeadAt(idx, h)
    ensures ExtentOfHead(idx, lcs, size, h).Ok? ==> ExtentOfHead(idx, lcs, size, h).value.ctype == idx[h].value.ctype
  {
    hide Scan, Reach, StartOf, HasBit;
  }

  /** A byte at the start of a block that cannot be filled cannot be read. */
  lemma UnfilledUnread(img: Image, inode: Inode, z: ZMap, block: nat, level: nat)
    requires inode.layout.Compressed() && img.ZMapFor(inode) == Ok(Some(z)) && z.size == inode.size && !z.HasFragment()
    requires block * img.BlockSize() < inode.size
    requires forall room: nat :: FillFromExtent(img, z, block * img.BlockSize(), room) == Err
    ensures ReadFile(img, inode, block * img.BlockSize(), 1, level) == Err
  {
    hide ReadFile, ReadBlocks, ReadDataBlock, FillFromExtent, ReadIndex, Image.BlockSize, Image.ZMapFor, PieceAt, FragmentRange;
    var off := block * img.BlockSize();
    ReadFileIs(img, inode, off, 1, level);
    BlocksStep(img, inode, Some(z), off, 1, level);
    PieceAtStart(inode.size, img.BlockSize(), block, 1);
    var p := PieceAt(inode.size, img.BlockSize(), off, 1);
    CompressedBlock(img, inode, z, block, p.valid, level);
    NoFragmentRange(z, ReadIndex(img.dev, z));
    assert FillOne(img, z, off, p.valid, level) == FillFromExtent(img, z, off, p.valid);
  }

  /** Lclusters are whole blocks, so every head starts one. */
  lemma HeadBlock(img: Image, t: TrailerPlan, c: Config, head: nat) returns (block: nat)
    requires t.blkszbits == img.blkszbits && c.lclusterSize == Pow2(t.blkszbits + t.lclusterbits)
    ensures head * c.lclusterSize == block * img.BlockSize()
  {
    hide Pow2;
    Pow2Add(t.blkszbits, t.lclusterbits);
    var k := Pow2(t.lclusterbits);
    block := head * k;
    Regroup(head, k, img.BlockSize());
  }

  lemma LongPclusterUnread(img: Image, inode: Inode, t: TrailerPlan, c: Config, src: seq<byte>, plan: Plan, first: nat, k: nat, level: nat)
    requires WrittenFile(img, inode, t, c, src, plan, first)
    requires t.Valid() && |t.entries| <= U32_MAX && IndexSurvives(t, img.BodyEnd(inode))
    requires k < |plan.pclusters| && plan.pclusters[k].ctype == HEAD1
    requires PclusterEnd(c, |src|, plan.pclusters[k]) > plan.pclusters[k].head * c.lclusterSize + MAX_PCLUSTER_SIZE
    ensures plan.pclusters[k].head * c.lclusterSize < |src|
    ensures ReadFile(img, inode, plan.pclusters[k].head * c.lclusterSize, 1, level) == Err
  {
    hide *;
    var h, lcs := plan.pclusters[k].head, c.lclusterSize;
    var z := IndexReadsBack(img, inode, t, c, src, plan, first);
    OpenedBasics(img, inode, t, c, src, plan, first, z);
    WrittenBasics(img, inode, t, c, src, plan, first);
    var idx := ReadIndex(img.dev, z);
    PlanIndexIsWellFormed(t, c, src, plan, first, idx);
    TrueEndOf(t, c, src, plan, first, idx, k);
    EndInside(c, |src|, plan.pclusters[k]);
    HeadAtZero(t, c, src, plan, first, idx, k);
    var block := HeadBlock(img, t, c, h);
    forall room: nat
      ensures FillFromExtent(img, z, h * lcs, room) == Err
    {
      LongExtentUnfilled(img, z, h, h * lcs, room);
    }
    UnfilledUnread(img, inode, z, block, level);
  }

  lemma HeadAtZero(t: TrailerPlan, c: Config, src: seq<byte>, plan: Plan, first: nat, idx: Index, k: nat)
    requires Carries(t, c, src, plan, first) && IndexOf(idx, t) && k < |plan.pclusters| && plan.pclusters[k].ctype == HEAD1
    ensures IsHeadAt(idx, plan.pclusters[k].head) && idx[plan.pclusters[k].head].value.ctype != PLAIN
    ensures StartOf(idx, c.lclusterSize, plan.pclusters[k].head) == plan.pclusters[k].head * c.lclusterSize
  {
    hide Carries, IndexOf;
    NextHeadOf(t, c, src, plan, first, idx, k);
    EntriesFrom(t, c, src, plan, first, idx, k, plan.pclusters[k].head);
  }

  /**
   A frame that does not lie in the first block is not decoded: the index carries no block
   count, and of the block the reader takes there is nothing but padding, or part of the frame.
   */
  lemma SecondBlockIsLost(img: Image, c: Config, p: PclusterPlan, source: seq<byte>)
    requires LawfulCodec(img, c) && RefusesCutFrames(img, c) && img.zeroPadding && c.Valid() && c.Fits(source)
    requires p.rawCompressed == c.compress(source) && !InFirstBlock(c, p)
    requires PadPclusterBlock(p.rawCompressed, c.Budget(), HEAD1, c.algo) == Ok(p.blockBytes)
    ensures c.blockSize <= |p.blockBytes|
    ensures Decompress(img, AlgorithmId(c.algo), false, p.blockBytes[..c.blockSize], |source|) != Ok(source)
  {
    hide Config.Fits, Config.Budget, LawfulCodec, RefusesCutFrames, AlgorithmId, Decompress, StripLeadingPad;
    var frame, bs := c.compress(source), c.blockSize;
    BlocksFit(c);
    FrameStart(img, c, source, 0);
    if c.algo != Lz4 {
      assert p.blockBytes[..bs] == frame[..bs] == Zeros(0) + frame[..bs];
      CutIsRefused(img, c, source, 0, bs, p.blockBytes[..bs]);
    } else {
      var pad: nat := c.Budget() - |frame|;
      if pad >= bs {
        assert p.blockBytes[..bs] == Zeros(bs);
        NothingButPadding(img, AlgorithmId(c.algo), p.blockBytes[..bs], |source|);
      } else {
        assert p.blockBytes[..bs] == Zeros(pad) + frame[..bs - pad];
        CutIsRefused(img, c, source, pad, bs - pad, p.blockBytes[..bs]);
      }
    }
  }

  lemma BlocksFit(c: Config)
    requires c.Valid()
    ensures c.blockSize <= c.Budget() && (c.targetBlocks >= 2 ==> 2 * c.blockSize <= c.Budget())
  {
    MulMono(1, c.targetBlocks, c.blockSize);
    if c.targetBlocks >= 2 {
      MulMono(2, c.targetBlocks, c.blockSize);
    }
  }

  lemma NothingButPadding(img: Image, algo: nat, block: seq<byte>, n: nat)
    requires img.zeroPadding && block != [] && block == Zeros(|block|)
    ensures Decompress(img, algo, false, block, n) == Err
  {
    var pad := LeadingZeros(block);
    assert forall i :: 0 <= i < |block| ==> Zeros(|block|)[i] == 0;
    assert pad == |block|;
  }

  lemma CutIsRefused(img: Image, c: Config, source: seq<byte>, pad: nat, m: nat, block: seq<byte>)
    requires RefusesCutFrames(img, c) && img.zeroPadding && c.Fits(source)
    requires 0 < m < |c.compress(source)| && c.compress(source)[0] != 0
    requires block == Zeros(pad) + c.compress(source)[..m]
    ensures Decompress(img, AlgorithmId(c.algo), false, block, |source|) != Ok(source)
  {
    hide Config.Fits, AlgorithmId, StripLeadingPad;
    StripUndoesPad(pad, c.compress(source)[..m]);
  }

  /** A compressed extent gives what its first block decodes to. */
  lemma ExtentFromFirstBlock(img: Image, z: ZMap, c: Config, x: Extent, source: seq<byte>, raw: seq<byte>, block: seq<byte>)
    requires x.ctype == HEAD1 && x.blockCount == 1 && !x.partialRef && z.algorithmType == AlgorithmId(c.algo) && raw != []
    requires PayloadAt(img, z, x.blkaddr, InlineTail(z, x), raw, block) && !InlineTail(z, x)
    requires x.start + |source| == x.end && img.BlockSize() <= |block|
    requires Decompress(img, AlgorithmId(c.algo), false, block[..img.BlockSize()], |source|) != Ok(source)
    ensures ExtentSlice(img, z, x, 0, |source|) != Ok(source)
  {
    hide Image.BlockSize, ZMap.TailInline, AlgorithmId, Decompress, FrameBytes;
    FrameIsFirstBlock(img, z, x, raw, block);
    SmallId(c.algo);
    var whole := DecodeExtent(img, z, x);
    assert whole.Ok? ==> whole.value[0..|source|] == whole.value;
  }

  lemma HeadsAreNotPlain()
    ensures HEAD1 != PLAIN
  {
  }

  /** So pcluster `k` does not read back. */
  lemma PclusterIsLost(img: Image, inode: Inode, t: TrailerPlan, c: Config, src: seq<byte>, plan: Plan, first: nat, z: ZMap, k: nat)
    requires Opened(img, inode, t, c, src, plan, first, z) && RefusesCutFrames(img, c) && k < |plan.pclusters|
    requires plan.pclusters[k].ctype == HEAD1 && !IsInlined(t, plan, k) && !InFirstBlock(c, plan.pclusters[k])
    ensures !HoldsExtent(img, z, src, ExtentOfPcluster(c, |src|, plan, first, k))
  {
    hide *;
    OpenedBasics(img, inode, t, c, src, plan, first, z);
    WrittenBasics(img, inode, t, c, src, plan, first);
    var p, x := plan.pclusters[k], ExtentOfPcluster(c, |src|, plan, first, k);
    var source := Source(src, c.lclusterSize, p.head, p.nLclusters);
    TailIsLast(t, c, src, plan, first, ReadIndex(img.dev, z), z, img.BodyEnd(inode), k);
    PayloadOnDevice(img, inode, t, c, src, plan, first, z, k);
    TrueEndOf(t, c, src, plan, first, ReadIndex(img.dev, z), k);
    ExtentFields(c, src, plan, first, k);
    GoodCases(t, c, src, plan, first, k);
    MapAlgorithm(t, img.BodyEnd(inode), |src|);
    HeadsAreNotPlain();
    SecondBlockIsLost(img, c, p, source);
    FrameStart(img, c, source, 0);
    ExtentFromFirstBlock(img, z, c, x, source, p.rawCompressed, p.blockBytes);
    LostIfSliceIsNot(img, z, src, x, source);
  }

  lemma LostIfSliceIsNot(img: Image, z: ZMap, src: seq<byte>, x: Extent, source: seq<byte>)
    requires x.start <= x.end <= |src| && source == src[x.start..x.end] && x.blockCount == 1
    requires ExtentSlice(img, z, x, 0, |source|) != Ok(source)
    ensures !HoldsExtent(img, z, src, x)
  {
    hide ExtentSlice;
  }

  /** A lost pcluster keeps the extents from holding the file. */
  lemma LostExtent(img: Image, inode: Inode, t: TrailerPlan, c: Config, src: seq<byte>, plan: Plan, first: nat, z: ZMap)
    requires Opened(img, inode, t, c, src, plan, first, z) && ShortPclusters(c, |src|, plan)
    requires RefusesCutFrames(img, c) && !FirstBlocksHold(t, c, plan)
    ensures !ExtentsHold(img, z, src)
  {
    hide Opened, Carries, Sound, WrittenMap, IndexOf, ReadIndex, HoldsExtent, ExtentAt, WrittenFile, DivCeil, ExtentOfHead, StartOf;
    hide ZMap.LclusterSize, Image.BodyEnd, ShortPclusters, InFirstBlock, PclusterEnd, BoundedIndex;
    OpenedBasics(img, inode, t, c, src, plan, first, z);
    var idx, lcs := ReadIndex(img.dev, z), c.lclusterSize;
    var k :| 0 <= k < |plan.pclusters| && plan.pclusters[k].ctype == HEAD1 && !IsInlined(t, plan, k) && !InFirstBlock(c, plan.pclusters[k]);
    var h := plan.pclusters[k].head;
    PclusterIsLost(img, inode, t, c, src, plan, first, z, k);
    HeadExtent(t, c, src, plan, first, idx, k);
    TrueEndOf(t, c, src, plan, first, idx, k);
    EndInside(c, |src|, plan.pclusters[k]);
    HeadAtZero(t, c, src, plan, first, idx, k);
    SizeOf(t, c, src, plan, first, idx);
    PlanIndexIsWellFormed(t, c, src, plan, first, idx);
    WfIsScannable(idx, lcs);
    HeadFindsItself(idx, lcs, |src|, h);
    assert StartsAt(img, z, h * lcs);
  }

  /**
   Given an index that reads back, the file reads back exactly when no compressed pcluster
   decodes to more than a pcluster may, and each has its frame in the first of its blocks.
   Of LZ4 pclusters with blocks of their own that is none, unless they have one block only.
   */
  lemma WrittenReadsBackIff(img: Image, inode: Inode, t: TrailerPlan, c: Config, src: seq<byte>, plan: Plan, first: nat, level: nat)
    requires WrittenFile(img, inode, t, c, src, plan, first) && (c.targetBlocks == 1 || RefusesCutFrames(img, c))
    requires t.Valid() && |t.entries| <= U32_MAX && IndexSurvives(t, img.BodyEnd(inode))
    ensures ReadsAs(img, inode, src, level) <==> ShortPclusters(c, |src|, plan) && FirstBlocksHold(t, c, plan)
  {
    hide WrittenFile, IndexSurvives, ReadFile, PclusterEnd, Image.BodyEnd, ZMap.HasFragment, Partitioned, FragmentStart, ExtentsHold;
    hide Image.ZMapFor, Opened, RefusesCutFrames;
    var z := IndexReadsBack(img, inode, t, c, src, plan, first);
    if !ShortPclusters(c, |src|, plan) {
      var k :| 0 <= k < |plan.pclusters| && plan.pclusters[k].ctype == HEAD1
               && PclusterEnd(c, |src|, plan.pclusters[k]) > plan.pclusters[k].head * c.lclusterSize + MAX_PCLUSTER_SIZE;
      LongPclusterUnread(img, inode, t, c, src, plan, first, k, level);
      assert ReadFile(img, inode, plan.pclusters[k].head * c.lclusterSize, 1, level) == Err;
    } else {
      OpenedIsPartitioned(img, inode, t, c, src, plan, first, z);
      FileReadsAsIff(img, inode, z, src, level);
      if FirstBlocksHold(t, c, plan) {
        EveryExtentHolds(img, inode, t, c, src, plan, first, z);
      } else {
        LostExtent(img, inode, t, c, src, plan, first, z);
      }
    }
  }
}
