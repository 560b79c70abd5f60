/**
 The whole build, from a list of nodes to an image: plan, lay out, assign, encode, emit. Every
 file of the image then reads back, and every directory resolves its children.
 */
module BuildImages {
  import opened Basics
  import opened Bits
  import opened BuildNodes
  import opened BuildThenRead
  import opened ChunkFile
  import opened CompactLimits
  import opened CompactRoundTrip
  import opened Directory
  import opened DirectoryRead
  import opened DirectoryRoundTrip
  import opened ImageBuilder
  import opened Images
  import opened MetaLayout
  import opened NodeReads
  import opened PlanIndex
  import opened Planner
  import opened ReadPath
  import opened Trailer
  import opened TrailerReadBack
  import opened WriteThenRead
  import opened ZMapReader

  // ----- The build

  /** Why a build can be refused. */
  ghost predicate BuildCanFail(spec: BuildSpec, b: Build) {
    || (exists i :: 0 <= i < |spec.nodes| && NodeCanFail(spec.nodes[i], spec.Bs()))
    || (exists i :: 0 <= i < |spec.nodes| == |b.slots| && RefersInside(spec.nodes[i], |b.slots|) && DirCanFail(spec, b.slots, i))
    || GapOverflows(spec.cfgs, spec.dict, MetaBlkaddr(spec.Bs()) * spec.Bs())
    || AssignCanFail(b.datas, spec.Bs(), DataAreaStart(b.slots, spec.Bs()))
  }

  lemma SomeStart(slots: seq<MetaSlot>, bs: nat)
    requires bs > 0
    ensures DataAreaStart(slots, bs) > 0
  {
    DivCeilBounds(SB_AREA_END, bs);
  }

  lemma BodiesValid(spec: BuildSpec, ps: seq<Planned>)
    requires spec.Valid() && |ps| == |spec.nodes| && forall i :: 0 <= i < |ps| ==> PlannedFor(spec.nodes[i], spec.Bs(), ps[i])
    ensures forall i :: 0 <= i < |ps| ==> Bodies(ps)[i].Valid()
  {
    hide WfPlan, PlannedSize, Inlines, Stolen, BuildSpec.Bs;
  }

  /** Planned pclusters fill the blocks set aside for them, the inlined one none. */
  lemma FileFits(n: NodeSpec, bs: nat, p: Planned)
    requires n.FileSpec? && bs > 0 && PlannedFor(n, bs, p)
    ensures NodeFits(CompressedData(p.left.pclusters), bs)
  {
    hide Inlines, PlannedSize, WfPlan, NodeSpec.ConfigFor, PlannedFor, Stolen;
    TailIsDecided(n, bs, p);
    forall k | 0 <= k < |p.left.pclusters|
      ensures |p.left.pclusters[k].blockBytes| <= p.left.pclusters[k].blockCount * bs
    {
      LeftAt(p.plan, p.left, p.inline, k);
      PlannedFits(n, bs, p.plan, k);
    }
  }

  /** Inlining leaves a pcluster as it was, or takes its block away. */
  lemma LeftAt(plan: Plan, left: Plan, inline: Option<seq<byte>>, k: nat)
    requires TailDecided(plan, left, inline) && k < |left.pclusters|
    ensures k < |plan.pclusters| && (left.pclusters[k] == plan.pclusters[k] || left.pclusters[k].blockBytes == [])
  {
  }

  lemma PlannedFits(n: NodeSpec, bs: nat, plan: Plan, k: nat)
    requires n.FileSpec? && WfPlan(n.ConfigFor(bs), n.src, plan) && k < |plan.pclusters|
    ensures |plan.pclusters[k].blockBytes| <= plan.pclusters[k].blockCount * bs
  {
    hide Maximal, Contiguous, EntriesOf, Source, Config.Fits, NodeSpec.ConfigFor, Planner.NLclusters, Config.Budget;
    assert GoodPcluster(n.ConfigFor(bs), n.src, plan.pclusters[k]);
    BudgetIs(n, bs);
  }

  lemma BudgetIs(n: NodeSpec, bs: nat)
    requires n.FileSpec?
    ensures n.ConfigFor(bs).Budget() == n.ConfigFor(bs).targetBlocks * bs
  {
    hide Pow2;
  }

  /** Directory blocks are whole. */
  lemma ListedBlocksWhole(nid: nat, parentNid: nat, children: seq<DirEntry>, bs: nat, blocks: seq<seq<byte>>)
    requires ListsAs(nid, parentNid, children, bs, blocks)
    ensures forall k :: 0 <= k < |blocks| ==> |blocks[k]| == bs
  {
    hide IsPacking, AllEntries, FitsBlock;
  }

  lemma DataFits(spec: BuildSpec, p: Planned, slots: seq<MetaSlot>, i: nat, d: NodeData)
    requires i < |spec.nodes| == |slots| && RefersInside(spec.nodes[i], |slots|) && DataFor(spec, p, slots, i, d)
    requires PlannedFor(spec.nodes[i], spec.Bs(), p)
    ensures NodeFits(d, spec.Bs())
  {
    hide PlannedFor, BuildSpec.Bs, ListsAs, InlinesTail;
    var n := spec.nodes[i];
    if n.FileSpec? {
      FileFits(n, spec.Bs(), p);
    } else if n.content.Dir? {
      ListedBlocksWhole(slots[i].Nid(), slots[n.content.parent].Nid(), EntriesFor(n, slots), spec.Bs(), d.blocks);
    }
  }

  lemma DatasFit(spec: BuildSpec, ps: seq<Planned>, slots: seq<MetaSlot>, datas: seq<NodeData>)
    requires |ps| == |spec.nodes| == |slots| == |datas| && forall i :: 0 <= i < |ps| ==> RefersInside(spec.nodes[i], |slots|)
    requires forall i :: 0 <= i < |ps| ==> PlannedFor(spec.nodes[i], spec.Bs(), ps[i]) && DataFor(spec, ps[i], slots, i, datas[i])
    ensures forall i :: 0 <= i < |datas| ==> NodeFits(datas[i], spec.Bs())
  {
    hide PlannedFor, DataFor, NodeFits, BuildSpec.Bs, RefersInside;
    forall i | 0 <= i < |datas|
      ensures NodeFits(datas[i], spec.Bs())
    {
      DataFits(spec, ps[i], slots, i, datas[i]);
    }
  }

  // ----- What the reader sees of it

  /** The reader's view of the image: its bytes and its geometry. */
  ghost predicate ImageOf(f: NodeBuilt, dev: seq<byte>, img: Image) {
    img.dev == dev && img.blkszbits == f.blkszbits && img.metaBlkaddr == MetaBlkaddr(f.Bs())
  }

  /** What `Inode::read` makes of any node's inode. */
  ghost predicate InodeAt(f: NodeBuilt, inode: Inode) {
    && inode.nid == f.slot.Nid() && inode.onDiskSize == f.node.bodySize
    && (if inode.xattrIcount == 0 then 0 else 12 + (inode.xattrIcount - 1) * 4) == f.node.xattrLen
  }

  /** And of a compressed file's. */
  ghost predicate InodeOf(f: NodeBuilt, inode: Inode)
    requires f.node.FileSpec?
  {
    && InodeAt(f, inode) && inode.size == |f.node.src|
    && inode.layout == (if f.node.format == Legacy then CompressionLegacy else Compression)
  }

  /** What is asked of a compressed file's options and of its codec; the builder sets the zero-padding flag. */
  ghost predicate Asked(f: NodeBuilt, img: Image)
    requires f.node.FileSpec?
  {
    && LawfulCodec(img, f.node.ConfigFor(f.Bs())) && img.zeroPadding
    && SideConditions(f.t, f.node.ConfigFor(f.Bs()), |f.node.src|, f.p.plan, f.HeadEnd())
  }

  /** Any range of the compressed file reads back from `dev`. */
  ghost predicate ReadsBackFrom(f: NodeBuilt, dev: seq<byte>)
    requires f.node.FileSpec?
  {
    forall img: Image, inode: Inode, off: nat, n: nat, level: nat ::
      ImageOf(f, dev, img) && InodeOf(f, inode) && Asked(f, img) && off + n <= |f.node.src| ==>
        ReadFile(img, inode, off, n, level) == Ok(f.node.src[off..off + n])
  }

  /** The inode the builder writes for a node that is not compressed. */
  ghost predicate PlainInode(f: NodeBuilt, inode: Inode)
    requires f.node.PlainSpec?
  {
    && InodeAt(f, inode)
    && match f.node.content
       case Flat(data) =>
         && inode.size == |data|
         && (if InlinesTail(f.node, f.Bs()) then inode.layout == FlatInline
             else inode.layout == FlatPlain && (data != [] ==> inode.rawU == f.first))
       case Link(target) => inode.size == |target| && inode.layout == FlatPlain && inode.rawU == f.first
       case Chunks(chunks, bits, indexed) =>
         && inode.size == |ChunksContent(chunks, ChunkSize(f.node, f.Bs()))| && inode.layout == ChunkBased
         && inode.rawU == bits + if indexed then 0x20 else 0
       case Dir(_, _) =>
         f.data.DirData? && inode.size == |f.data.blocks| * f.Bs() && inode.layout == FlatPlain && inode.rawU == f.first
       case Nothing => true
  }

  /** What a flat file, a link or a chunked file holds. */
  function ContentOf(n: NodeSpec, bs: nat): Option<seq<byte>>
    requires n.PlainSpec?
  {
    match n.content
    case Flat(data) => Some(data)
    case Link(target) => Some(target)
    case Chunks(chunks, _, _) => Some(ChunksContent(chunks, ChunkSize(n, bs)))
    case _ => None
  }

  /** Any range of what the node holds reads back from `dev`. */
  ghost predicate PlainReadsBack(f: NodeBuilt, dev: seq<byte>)
    requires f.node.PlainSpec?
  {
    var content := ContentOf(f.node, f.Bs());
    content.Some? ==>
      forall img: Image, inode: Inode, off: nat, n: nat, level: nat ::
        ImageOf(f, dev, img) && PlainInode(f, inode) && off + n <= |content.value| ==>
          ReadFile(img, inode, off, n, level) == Ok(content.value[off..off + n])
  }

  /** The directory lists the dots and its children, and resolves `name` to the inode of the child so called. */
  ghost predicate ListsAndResolves(f: NodeBuilt, slots: seq<MetaSlot>, img: Image, dir: Inode, name: seq<byte>)
    requires f.node.PlainSpec? && f.node.content.Dir? && RefersInside(f.node, |slots|)
  {
    var es, parentNid := EntriesFor(f.node, slots), slots[f.node.content.parent].Nid();
    ListDir(img, dir) == Ok(AllEntries(f.slot.Nid(), parentNid, es)) && Resolves(img, dir, es, name)
  }

  ghost predicate DirReadsBack(f: NodeBuilt, slots: seq<MetaSlot>, dev: seq<byte>)
    requires f.node.PlainSpec? && f.node.content.Dir? && RefersInside(f.node, |slots|)
  {
    DistinctNames(EntriesFor(f.node, slots)) ==>
      forall img: Image, dir: Inode, name: seq<byte> ::
        ImageOf(f, dev, img) && PlainInode(f, dir) && name != [DOT] && name != [DOT, DOT] ==>
          ListsAndResolves(f, slots, img, dir, name)
  }

  /** The device holds the node's slot, and its data from its first block on. */
  ghost predicate NodeHeld(f: NodeBuilt, dev: seq<byte>, data: seq<Region>) {
    && (f.node.FileSpec? ==> f.t.Valid()) && Holds(dev, Region(f.At(), f.Bytes()))
    && HoldsAll(dev, data) && NodePlaced(f.data, f.first, data, f.Bs()) && f.first > 0
  }

  lemma ConfigParts(n: NodeSpec, blkszbits: nat)
    requires n.FileSpec?
    ensures var c := n.ConfigFor(Pow2(blkszbits));
            && c.Valid() && c.targetBlocks == Max(n.target, 1) && c.blockSize == Pow2(blkszbits) && c.algo == n.algo
            && c.lclusterSize == Pow2(blkszbits + n.lclusterbits)
  {
    hide Pow2;
    Pow2Add(blkszbits, n.lclusterbits);
    MulMono(1, Pow2(n.lclusterbits), Pow2(blkszbits));
  }

  /** The inode lies where its NID says, and its head ends where the reader looks for the trailer. */
  lemma InodeAddress(f: NodeBuilt, img: Image, inode: Inode)
    requires |f.head| == f.node.HeadLen() && ImageOf(f, img.dev, img) && InodeAt(f, inode) && f.slot.start % EROFS_INODE_SLOT_SIZE == 0
    ensures img.BlockSize() == f.Bs()
    ensures img.Iloc(inode.nid) == f.At() && img.BodyEnd(inode) == f.HeadEnd() == f.At() + |f.head|
  {
    hide Pow2, MetaBlkaddr;
  }

  /** A file the device holds reads back. */
  lemma FileReads(f: NodeBuilt, img: Image, inode: Inode, data: seq<Region>, off: nat, n: nat, level: nat)
    requires FileIs(f) && NodeHeld(f, img.dev, data) && f.slot.start % EROFS_INODE_SLOT_SIZE == 0
    requires ImageOf(f, img.dev, img) && InodeOf(f, inode) && Asked(f, img) && off + n <= |f.node.src|
    ensures ReadFile(img, inode, off, n, level) == Ok(f.node.src[off..off + n])
  {
    hide WfPlan, PlannedFor, NodePlaced, HoldsAll, Holds, TrailerBytes, SideConditions, LawfulCodec, ReadFile, Pow2, MetaBlkaddr, Image.Iloc;
    hide Image.BodyEnd, AddressesFrom, TailDecided, NodeSpec.ConfigFor, NodeBuilt.At, TrailerPlan.Valid, Image.BlockSize;
    InodeAddress(f, img, inode);
    TailIsDecided(f.node, f.Bs(), f.p);
    ConfigParts(f.node, f.blkszbits);
    BuiltReadsBack(img, inode, f.t, f.node.ConfigFor(f.Bs()), f.node.src, f.p.plan, f.p.left, f.head,
                   [CompressedData(f.p.left.pclusters)], [f.first], data, 0, off, n, level);
  }

  lemma HeldReadsBack(f: NodeBuilt, dev: seq<byte>, data: seq<Region>)
    requires FileIs(f) && NodeHeld(f, dev, data) && f.slot.start % EROFS_INODE_SLOT_SIZE == 0
    ensures f.node.FileSpec? && ReadsBackFrom(f, dev)
  {
    hide NodeHeld, Asked, InodeOf, ReadFile, MetaBlkaddr, PlannedFor, AddressesFrom, TrailerPlan.Valid;
    forall img: Image, inode: Inode, off: nat, n: nat, level: nat |
      ImageOf(f, dev, img) && InodeOf(f, inode) && Asked(f, img) && off + n <= |f.node.src|
      ensures ReadFile(img, inode, off, n, level) == Ok(f.node.src[off..off + n])
    {
      FileReads(f, img, inode, data, off, n, level);
    }
  }

  // ----- Nodes that are not compressed

  /** The parts of such a node fit together. */
  ghost predicate PlainIs(f: NodeBuilt) {
    && f.node.PlainSpec? && PlannedFor(f.node, f.Bs(), f.p) && |f.head| == f.node.HeadLen()
    && f.slot.start % EROFS_INODE_SLOT_SIZE == 0
    && f.first + Blocks(PiecesOf(f.data, f.Bs())) <= U32_MAX
    && (!f.node.content.Dir? ==> f.data == PlainData(f.node, f.Bs()))
  }

  /** What follows the inode lies where its body ends. */
  lemma TailHeld(f: NodeBuilt, dev: seq<byte>, data: seq<Region>)
    requires f.node.PlainSpec? && NodeHeld(f, dev, data)
    ensures var tail := TailBytes(f.node, f.Bs(), f.first);
            ReadAt(dev, f.HeadEnd(), |tail|) == Ok(tail)
  {
    hide TailBytes, NodeAt, HoldsAll, NodePlaced;
    var tail := TailBytes(f.node, f.Bs(), f.first);
    var whole := f.head + tail;
    SliceSlice(dev, f.At(), f.At() + |whole|, |f.head|, |whole|);
    assert whole[|f.head|..|whole|] == tail;
  }

  /** A single piece lies at the node's first block. */
  lemma SinglePieceHeld(f: NodeBuilt, dev: seq<byte>, data: seq<Region>, bytes: seq<byte>)
    requires NodeHeld(f, dev, data) && (f.data == SymlinkData(bytes) || (f.data == FlatData(bytes) && bytes != []))
    ensures ReadAt(dev, f.first * f.Bs(), |bytes|) == Ok(bytes)
  {
    hide NodeBuilt.Bytes, NodeAt, HoldsAll, NodePlaced, DivCeil, Pow2;
    PieceHeld(dev, f.data, f.first, data, f.Bs(), 0);
    assert PiecesOf(f.data, f.Bs())[..0] == [];
  }

  lemma ChunkFormat(bits: nat, indexed: bool)
    requires bits <= 31
    ensures var u := bits + if indexed then 0x20 else 0;
            u % 32 == bits && u % 0x1_0000 == u && HasBit(u, 0x20) == indexed
  {
  }

  /** What the reader makes of the chunk format. */
  lemma ChunkInfoIs(f: NodeBuilt, img: Image, inode: Inode)
    requires f.node.PlainSpec? && f.node.content.Chunks? && f.node.content.chunkBits <= 31
    requires PlainInode(f, inode) && img.BlockSize() == f.Bs()
    ensures ChunkInfoOf(img, inode).usesIndexes == f.node.content.indexed
    ensures ChunkInfoOf(img, inode).chunkSize == ChunkSize(f.node, f.Bs())
  {
    hide Pow2, ChunksContent, HasBit, DivCeil, Image.BlockSize, InodeAt;
    ChunkFormat(f.node.content.chunkBits, f.node.content.indexed);
  }

  lemma ChunkedReads(f: NodeBuilt, img: Image, inode: Inode, data: seq<Region>, off: nat, n: nat, level: nat)
    requires PlainIs(f) && f.node.content.Chunks? && NodeHeld(f, img.dev, data) && PlainInode(f, inode)
    requires img.BlockSize() == f.Bs() && img.BodyEnd(inode) == f.HeadEnd()
    requires off + n <= |ChunksContent(f.node.content.chunks, ChunkSize(f.node, f.Bs()))|
    ensures ReadFile(img, inode, off, n, level) == Ok(ChunksContent(f.node.content.chunks, ChunkSize(f.node, f.Bs()))[off..off + n])
  {
    hide Pow2, ChunksContent, Image.BlockSize, Image.BodyEnd, NodeBuilt.HeadEnd, NodeBuilt.Bytes, NodeAt, HoldsAll, NodePlaced, ReadFile;
    hide InodeAt, MapBytes, ChunkAddrs, ChunkInfoOf, WellCut, ChunkSize, PiecesOf, Blocks, ReadAt, NodeBuilt.Bs;
    TailHeld(f, img.dev, data);
    ChunkInfoIs(f, img, inode);
    ChunksWereWritten(img, inode, f.node.content.chunks, f.first, data, U32_MAX);
    ChunkedFileReadsBack(img, inode, f.node.content.chunks, ChunkAddrs(f.node.content.chunks, f.first, f.Bs()), off, n, level);
  }

  /** A flat file, a link or a chunked file the device holds reads back. */
  lemma ContentReads(f: NodeBuilt, img: Image, inode: Inode, data: seq<Region>, off: nat, n: nat, level: nat)
    requires PlainIs(f) && NodeHeld(f, img.dev, data) && ImageOf(f, img.dev, img) && PlainInode(f, inode)
    requires ContentOf(f.node, f.Bs()).Some? && off + n <= |ContentOf(f.node, f.Bs()).value|
    ensures ReadFile(img, inode, off, n, level) == Ok(ContentOf(f.node, f.Bs()).value[off..off + n])
  {
    hide NodeHeld, ImageOf, InodeAt, ReadFile, ChunksContent, Image.BlockSize, Image.BodyEnd, NodeBuilt.At, NodeBuilt.HeadEnd, Pow2, PlannedFor;
    hide PiecesOf, Blocks;
    InodeAddress(f, img, inode);
    match f.node.content
    case Flat(bytes) =>
      if InlinesTail(f.node, f.Bs()) {
        TailHeld(f, img.dev, data);
        InlineFileReads(img, inode, bytes, off, n, level);
      } else {
        if bytes != [] {
          SinglePieceHeld(f, img.dev, data, bytes);
        }
        PlainFileReads(img, inode, bytes, off, n, level);
      }
    case Link(target) =>
      SinglePieceHeld(f, img.dev, data, target);
      PlainFileReads(img, inode, target, off, n, level);
    case Chunks(_, _, _) =>
      ChunkedReads(f, img, inode, data, off, n, level);
  }

  lemma HeldContentReads(f: NodeBuilt, dev: seq<byte>, data: seq<Region>)
    requires f.node.PlainSpec? && PlainIs(f) && NodeHeld(f, dev, data)
    ensures PlainReadsBack(f, dev)
  {
    hide NodeHeld, PlainIs, PlainInode, ReadFile, ContentOf, MetaBlkaddr, NodeBuilt.Bs;
    var content := ContentOf(f.node, f.Bs());
    if content.Some? {
      forall img: Image, inode: Inode, off: nat, n: nat, level: nat |
        ImageOf(f, dev, img) && PlainInode(f, inode) && off + n <= |content.value|
        ensures ReadFile(img, inode, off, n, level) == Ok(content.value[off..off + n])
      {
        ContentReads(f, img, inode, data, off, n, level);
      }
    }
  }

  /** The NIDs of an image that can be addressed fit a directory entry. */
  ghost predicate NidsFit(slots: seq<MetaSlot>) {
    forall i :: 0 <= i < |slots| ==> slots[i].Nid() < Pow2(64)
  }

  lemma LargestNid(start: nat, bs: nat, at: nat)
    requires start <= U32_MAX && bs <= 0x1_0000 && at <= start * bs
    ensures at / EROFS_INODE_SLOT_SIZE < Pow2(64)
  {
    hide Pow2;
    Pow2Of32();
    Pow2Add(32, 32);
    MulMono(start, U32_MAX, bs);
    MulMono(bs, 0x1_0000, U32_MAX);
    assert start * bs <= U32_MAX * 0x1_0000;
  }

  lemma NidsAreSmall(bs: nat, bodies: seq<InodeBody>, slots: seq<MetaSlot>)
    requires 0 < bs <= 0x1_0000 && IsLayout(bs, bodies, slots) && DataAreaStart(slots, bs) <= U32_MAX
    ensures NidsFit(slots)
  {
    hide IsLayout, DataAreaStart, Pow2, MetaBlkaddr;
    AreasInOrder(slots, bs);
    forall i | 0 <= i < |slots|
      ensures slots[i].Nid() < Pow2(64)
    {
      if i < |slots| - 1 {
        SlotsDisjoint(bs, bodies, slots, i, |slots| - 1);
      }
      LargestNid(DataAreaStart(slots, bs), bs, slots[i].start);
    }
  }

  lemma EntriesWritable(n: NodeSpec, slots: seq<MetaSlot>)
    requires n.PlainSpec? && n.content.Dir? && RefersInside(n, |slots|) && NidsFit(slots)
    ensures Writable(EntriesFor(n, slots))
  {
    hide Pow2, MetaSlot.Nid, ValidName;
    var es := EntriesFor(n, slots);
    forall i | 0 <= i < |es|
      ensures WritableEntry(es[i])
    {
      var c := n.content.children[i];
      assert es[i].nid == slots[c.node].Nid() && es[i].name == c.name;
    }
  }

  lemma DirReads(f: NodeBuilt, slots: seq<MetaSlot>, img: Image, inode: Inode, data: seq<Region>, name: seq<byte>)
    requires f.node.PlainSpec? && f.node.content.Dir? && RefersInside(f.node, |slots|)
    requires NodeHeld(f, img.dev, data) && ImageOf(f, img.dev, img) && PlainInode(f, inode) && f.Bs() <= 0x1_0000
    requires ListsAs(f.slot.Nid(), slots[f.node.content.parent].Nid(), EntriesFor(f.node, slots), f.Bs(), f.data.blocks)
    requires Writable(EntriesFor(f.node, slots)) && DistinctNames(EntriesFor(f.node, slots))
    requires f.slot.Nid() < Pow2(64) && slots[f.node.content.parent].Nid() < Pow2(64) && name != [DOT] && name != [DOT, DOT]
    ensures ListsAndResolves(f, slots, img, inode, name)
  {
    hide ListDir, Resolves, AllEntries, ListsAs, Pow2, MetaBlkaddr, EntriesFor, DistinctNames, MetaSlot.Nid, NodeBuilt.Bytes;
    hide PiecesOf, Blocks, HoldsAll, NodePlaced, Holds, Writable, InodeAt, ValidName;
    PlacedDirResolves(img, inode, f.slot.Nid(), slots[f.node.content.parent].Nid(), EntriesFor(f.node, slots), f.data.blocks, data, name);
  }

  /** A directory the device holds resolves its children. */
  lemma HeldDirResolves(f: NodeBuilt, slots: seq<MetaSlot>, dev: seq<byte>, data: seq<Region>, i: nat)
    requires f.node.PlainSpec? && NodeHeld(f, dev, data) && f.node.content.Dir? && RefersInside(f.node, |slots|) && NidsFit(slots)
    requires f.data.DirData? && i < |slots| && f.slot == slots[i] && f.Bs() <= 0x1_0000
    requires ListsAs(f.slot.Nid(), slots[f.node.content.parent].Nid(), EntriesFor(f.node, slots), f.Bs(), f.data.blocks)
    ensures DirReadsBack(f, slots, dev)
  {
    hide *;
    if DistinctNames(EntriesFor(f.node, slots)) {
      EntriesWritable(f.node, slots);
      ParentInside(f.node, |slots|);
      NidIsSmall(slots, i);
      NidIsSmall(slots, f.node.content.parent);
      forall img: Image, dir: Inode, name: seq<byte> |
        ImageOf(f, dev, img) && PlainInode(f, dir) && name != [DOT] && name != [DOT, DOT]
        ensures ListsAndResolves(f, slots, img, dir, name)
      {
        DeviceIs(f, dev, img);
        DirReads(f, slots, img, dir, data, name);
      }
    }
    ReadsBackIf(f, slots, dev);
  }

  lemma ParentInside(n: NodeSpec, count: nat)
    requires n.PlainSpec? && n.content.Dir? && RefersInside(n, count)
    ensures n.content.parent < count
  {
  }

  lemma NidIsSmall(slots: seq<MetaSlot>, i: nat)
    requires NidsFit(slots) && i < |slots|
    ensures slots[i].Nid() < Pow2(64)
  {
    hide MetaSlot.Nid, Pow2;
  }

  lemma ReadsBackIf(f: NodeBuilt, slots: seq<MetaSlot>, dev: seq<byte>)
    requires f.node.PlainSpec? && f.node.content.Dir? && RefersInside(f.node, |slots|)
    requires DistinctNames(EntriesFor(f.node, slots)) ==>
               forall img: Image, dir: Inode, name: seq<byte> ::
                 ImageOf(f, dev, img) && PlainInode(f, dir) && name != [DOT] && name != [DOT, DOT] ==>
                   ListsAndResolves(f, slots, img, dir, name)
    ensures DirReadsBack(f, slots, dev)
  {
    hide ImageOf, PlainInode, ListsAndResolves, EntriesFor, DistinctNames;
  }

  lemma DeviceIs(f: NodeBuilt, dev: seq<byte>, img: Image)
    requires ImageOf(f, dev, img)
    ensures img.dev == dev
  {
  }

  /** With 4 KiB lclusters in the compact form and at most 2048 of them to a pcluster nothing more is asked of a file. */
  lemma UsualFileIsSound(f: NodeBuilt)
    requires FileIs(f) && f.first > 0 && |f.t.entries| <= U32_MAX
    requires f.blkszbits == 12 && f.node.lclusterbits == 0 && f.node.target <= 1 && f.node.format == Compacted2B
    requires DistancesFit(f.p.plan)
    ensures SideConditions(f.t, f.node.ConfigFor(f.Bs()), |f.node.src|, f.p.plan, f.HeadEnd())
  {
    hide PlannedFor, WfPlan, NodeSpec.ConfigFor, IndexSurvives, ShortPclusters, AddressesFrom, TailDecided, TrailerPlan.Valid, Pow2;
    hide GeomOf, NodeBuilt.HeadEnd, Carries, DistancesFit, Survives;
    var c := f.node.ConfigFor(f.Bs());
    TailIsDecided(f.node, f.Bs(), f.p);
    ConfigParts(f.node, f.blkszbits);
    CarriesIf(f.t, c, f.node.src, f.p.plan, f.p.left, f.first);
    UsualPlanSurvives(f.t, c, f.node.src, f.p.plan, f.first, f.HeadEnd());
    Pow2Of12();
    FewLclustersAreShort(c, |f.node.src|, f.p.plan);
  }

  lemma FewLclustersAreShort(c: Config, size: nat, plan: Plan)
    requires DistancesFit(plan) && c.lclusterSize == 4096
    ensures ShortPclusters(c, size, plan)
  {
  }

  // ----- Steps of the build

  lemma NodeFails(spec: BuildSpec, b: Build)
    requires exists i :: 0 <= i < |spec.nodes| && NodeCanFail(spec.nodes[i], spec.Bs())
    ensures BuildCanFail(spec, b)
  {
    hide NodeCanFail, GapOverflows, AssignCanFail, DirCanFail;
  }

  lemma DirFails(spec: BuildSpec, b: Build)
    requires |b.slots| == |spec.nodes| && forall i :: 0 <= i < |spec.nodes| ==> RefersInside(spec.nodes[i], |b.slots|)
    requires exists i :: 0 <= i < |spec.nodes| && DirCanFail(spec, b.slots, i)
    ensures BuildCanFail(spec, b)
  {
    hide NodeCanFail, GapOverflows, AssignCanFail, DirCanFail, RefersInside;
  }

  lemma AssignFails(spec: BuildSpec, b: Build)
    requires AssignCanFail(b.datas, spec.Bs(), DataAreaStart(b.slots, spec.Bs()))
    ensures BuildCanFail(spec, b)
  {
    hide NodeCanFail, GapOverflows, AssignCanFail, DirCanFail;
  }

  lemma GapFails(spec: BuildSpec, b: Build)
    requires GapOverflows(spec.cfgs, spec.dict, MetaBlkaddr(spec.Bs()) * spec.Bs())
    ensures BuildCanFail(spec, b)
  {
    hide NodeCanFail, GapOverflows, AssignCanFail, DirCanFail;
  }

  lemma BlockSizes(spec: BuildSpec)
    requires spec.Valid()
    ensures spec.Bs() % EROFS_INODE_SLOT_SIZE == 0 && spec.Bs() <= 0x1_0000
  {
    hide Pow2;
    BlocksWhole(spec);
    Pow2Mono(spec.blkszbits, 16);
    Pow2Of32();
  }

  lemma LayoutLength(bs: nat, bodies: seq<InodeBody>, slots: seq<MetaSlot>)
    requires bs > 0 && IsLayout(bs, bodies, slots)
    ensures |slots| == |bodies|
  {
    hide SlotFits;
  }

  lemma SuperblockLength(spec: BuildSpec, total: nat)
    requires spec.Valid()
    ensures |spec.superblock(total)| == 128
  {
  }

  lemma AllReferInside(spec: BuildSpec)
    requires spec.Valid()
    ensures forall i :: 0 <= i < |spec.nodes| ==> RefersInside(spec.nodes[i], |spec.nodes|)
  {
    hide RefersInside;
  }

  lemma BlocksInRange(spec: BuildSpec, ps: seq<Planned>, slots: seq<MetaSlot>, datas: seq<NodeData>, firsts: seq<nat>,
                      data: seq<Region>, start: nat, total: nat)
    requires |ps| == |spec.nodes| == |slots| == |datas| == |firsts| && total <= U32_MAX
    requires forall i :: 0 <= i < |ps| ==> RefersInside(spec.nodes[i], |slots|)
    requires forall i :: 0 <= i < |ps| ==> DataFor(spec, ps[i], slots, i, datas[i])
    requires forall i :: 0 <= i < |ps| ==> Settled(datas[i], firsts[i], data, spec.Bs(), start, total)
    ensures forall i :: 0 <= i < |ps| && spec.nodes[i].FileSpec? ==> firsts[i] + BlocksOf(ps[i].left.pclusters) <= U32_MAX
  {
    hide Settled, BlocksOf, BuildSpec.Bs, DataFor, RefersInside;
    forall i | 0 <= i < |ps| && spec.nodes[i].FileSpec?
      ensures firsts[i] + BlocksOf(ps[i].left.pclusters) <= U32_MAX
    {
      DataOfFile(spec, ps[i], slots, i, datas[i]);
      FileBlocksFit(datas[i], firsts[i], data, spec.Bs(), start, total);
    }
  }

  lemma SpansMatch(spec: BuildSpec, b: Build, slotBytes: seq<seq<byte>>)
    requires IsComplete(spec, b) && |slotBytes| == |b.slots|
    requires forall i :: 0 <= i < |b.slots| ==> SlotHolds(NodeOf(spec, b, i), slotBytes[i])
    ensures forall i :: 0 <= i < |b.slots| ==> |slotBytes[i]| == b.slots[i].span
  {
    hide FileIs, NodeBuilt.Bytes;
    forall i | 0 <= i < |b.slots|
      ensures |slotBytes[i]| == b.slots[i].span
    {
      assert SlotHolds(NodeOf(spec, b, i), slotBytes[i]);
    }
  }

  lemma SlotAligned(bs: nat, bodies: seq<InodeBody>, slots: seq<MetaSlot>, i: nat)
    requires bs > 0 && IsLayout(bs, bodies, slots) && i < |slots|
    ensures slots[i].start % EROFS_INODE_SLOT_SIZE == 0
  {
    assert SlotFits(bs, bodies, slots, i);
  }

  /** Of all regions a finished image holds, those of node `i`. */
  lemma NodeIsHeld(spec: BuildSpec, b: Build, slotBytes: seq<seq<byte>>, sb: seq<byte>, data: seq<Region>, start: nat, total: nat, dev: seq<byte>, i: nat)
    requires IsComplete(spec, b) && i < |spec.nodes| && |slotBytes| == |b.slots| && start > 0
    requires HoldsAll(dev, AllRegions(sb, spec.cfgs, spec.dict, b.slots, slotBytes, data, spec.Bs()))
    requires SlotHolds(NodeOf(spec, b, i), slotBytes[i])
    requires Settled(b.datas[i], b.firsts[i], data, spec.Bs(), start, total)
    ensures NodeHeld(NodeOf(spec, b, i), dev, data)
    ensures spec.nodes[i].FileSpec? ==> FileIs(NodeOf(spec, b, i))
  {
    hide PlannedFor, NodePlaced, Holds, GapRegions, MetaBlkaddr, NodeBuilt.Bytes, TrailerPlan.Valid, AddressesFrom, Pow2, Blocks, PiecesOf;
    var gap := GapRegions(sb, spec.cfgs, spec.dict);
    var inodes := SlotRegions(b.slots, slotBytes, MetaBlkaddr(spec.Bs()) * spec.Bs());
    var all := AllRegions(sb, spec.cfgs, spec.dict, b.slots, slotBytes, data, spec.Bs());
    assert all == gap + inodes + data;
    forall k | 0 <= k < |data|
      ensures Holds(dev, data[k])
    {
      assert all[|gap| + |inodes| + k] == data[k];
    }
    assert all[|gap| + i] == inodes[i];
    assert Holds(dev, inodes[i]);
  }

  /** Node `i` reads back: a file as its content, a directory as its children. */
  ghost predicate NodeReadsBack(spec: BuildSpec, b: Build, i: nat, dev: seq<byte>)
    requires IsComplete(spec, b) && i < |spec.nodes| && RefersInside(spec.nodes[i], |b.slots|)
  {
    var f := NodeOf(spec, b, i);
    if f.node.FileSpec? then FileIs(f) && ReadsBackFrom(f, dev)
    else if f.node.content.Dir? then DirReadsBack(f, b.slots, dev)
    else PlainReadsBack(f, dev)
  }

  /** A node that was planned, encoded and placed reads back from a device that holds it. */
  lemma HeldNodeReads(spec: BuildSpec, b: Build, i: nat, dev: seq<byte>, data: seq<Region>, start: nat, total: nat)
    requires spec.Valid() && IsComplete(spec, b) && i < |spec.nodes| && RefersInside(spec.nodes[i], |b.slots|)
    requires NodeHeld(NodeOf(spec, b, i), dev, data) && b.slots[i].start % EROFS_INODE_SLOT_SIZE == 0
    requires spec.nodes[i].FileSpec? ==> FileIs(NodeOf(spec, b, i))
    requires PlannedFor(spec.nodes[i], spec.Bs(), b.ps[i]) && DataFor(spec, b.ps[i], b.slots, i, b.datas[i])
    requires Settled(b.datas[i], b.firsts[i], data, spec.Bs(), start, total) && total <= U32_MAX
    requires NidsFit(b.slots) && spec.Bs() <= 0x1_0000
    ensures NodeReadsBack(spec, b, i, dev)
  {
    hide NodeHeld, FileIs, PlannedFor, ReadsBackFrom, DirReadsBack, PlainReadsBack, NidsFit, ListsAs, EntriesFor, PlainData, Pow2, Blocks, PiecesOf;
    hide NodePlaced, MetaSlot.Nid, RefersInside;
    var f := NodeOf(spec, b, i);
    if f.node.FileSpec? {
      HeldReadsBack(f, dev, data);
    } else {
      assert PlainIs(f);
      if f.node.content.Dir? {
        HeldDirResolves(f, b.slots, dev, data, i);
      } else {
        HeldContentReads(f, dev, data);
      }
    }
  }

  // ----- The method

  /**
   `build_image_with`. What comes out holds every node: any range of a file reads back, and a
   directory resolves its children (`NodeReadsBack`). It is refused only for the reasons listed.
   */
  method BuildImage(spec: BuildSpec) returns (r: Result<array<byte>>, b: Build)
    requires spec.Valid()
    ensures r.Err? ==> BuildCanFail(spec, b)
    ensures r.Ok? ==> fresh(r.value) && IsComplete(spec, b) && IsLayout(spec.Bs(), Bodies(b.ps), b.slots)
    ensures r.Ok? ==> forall i :: 0 <= i < |spec.nodes| ==>
                        RefersInside(spec.nodes[i], |b.slots|) && NodeReadsBack(spec, b, i, r.value[..])
  {
    hide *;
    var bs := spec.Bs();
    b := Build([], [], [], [], []);
    var planned := PlanNodes(spec.nodes, bs);
    if planned.Err? {
      NodeFails(spec, b);
      return Err, b;
    }
    var ps := planned.value;
    BlockSizes(spec);
    BodiesValid(spec, ps);
    var slots := PlanMetaLayout(Bodies(ps), bs);
    LayoutLength(bs, Bodies(ps), slots);
    AllReferInside(spec);
    b := Build(ps, slots, [], [], []);
    var encoded := EncodeDatas(spec, ps, slots);
    if encoded.Err? {
      DirFails(spec, b);
      return Err, b;
    }
    var datas := encoded.value;
    var start := DataAreaStart(slots, bs);
    var placed := AssignDataBlocks(datas, start, bs);
    b := Build(ps, slots, datas, [], []);
    if placed.Err? {
      AssignFails(spec, b);
      return Err, b;
    }
    var (data, total, firsts) := placed.value;
    BlocksInRange(spec, ps, slots, datas, firsts, data, start, total);
    var slotBytes, ts := EncodeSlots(spec, ps, slots, datas, firsts);
    b := Build(ps, slots, datas, firsts, ts);
    BuildIsComplete(spec, b);
    SpansMatch(spec, b, slotBytes);
    DatasFit(spec, ps, slots, datas);
    SuperblockLength(spec, total);
    r := EmitImage(Bodies(ps), slots, slotBytes, datas, spec.superblock(total), spec.cfgs, spec.dict, bs, data, total);
    if r.Err? {
      GapFails(spec, b);
      return r, b;
    }
    SomeStart(slots, bs);
    NidsAreSmall(bs, Bodies(ps), slots);
    forall i | 0 <= i < |spec.nodes|
      ensures RefersInside(spec.nodes[i], |b.slots|) && NodeReadsBack(spec, b, i, r.value[..])
    {
      NodeIsHeld(spec, b, slotBytes, spec.superblock(total), data, start, total, r.value[..], i);
      SlotAligned(bs, Bodies(ps), slots, i);
      HeldNodeReads(spec, b, i, r.value[..], data, start, total);
    }
  }

  lemma BuildIsComplete(spec: BuildSpec, b: Build)
    requires |spec.nodes| == |b.ps| == |b.slots| == |b.datas| == |b.firsts| == |b.ts|
    ensures IsComplete(spec, b)
    ensures forall i :: 0 <= i < |spec.nodes| ==> NodeOf(spec, b, i).slot == b.slots[i]
    ensures forall i :: 0 <= i < |spec.nodes| ==> NodeOf(spec, b, i).node == spec.nodes[i]
  {
  }
}
