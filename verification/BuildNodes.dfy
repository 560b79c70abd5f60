/**
 What a build is given and what it makes of each node: its plan, its data and the bytes of
 its slot.
 */
module BuildNodes {
  import opened Basics
  import opened Bits
  import opened BuildThenRead
  import opened ChunkFile
  import opened Directory
  import opened DirectoryRoundTrip
  import opened ImageBuilder
  import opened MetaLayout
  import opened NodeReads
  import opened Planner
  import opened Trailer

  // ----- What is built

  /** An entry of a directory, by the node it names. */
  datatype Child = Child(name: seq<byte>, fileType: byte, node: nat)

  /** What a node holds that is not compressed; devices, pipes and sockets hold nothing. */
  datatype Content =
    | Flat(data: seq<byte>)
    | Link(target: seq<byte>)
    | Chunks(chunks: seq<Option<seq<byte>>>, chunkBits: nat, indexed: bool)
    | Dir(children: seq<Child>, parent: nat)
    | Nothing

  /** A compressed file with its options, or any other node. */
  datatype NodeSpec =
    | FileSpec(src: seq<byte>, algo: Algo, compress: seq<byte> -> seq<byte>, lclusterbits: nat, target: nat,
               format: Format, ztail: bool, bodySize: nat, xattrLen: nat)
    | PlainSpec(content: Content, bodySize: nat, xattrLen: nat)
  {
    /** Bytes in front of the trailers. */
    function HeadLen(): nat {
      bodySize + xattrLen
    }
    predicate Valid() {
      bodySize == 32 || bodySize == 64
    }
    function ConfigFor(bs: nat): Config
      requires FileSpec?
    {
      ConfigOf(algo, lclusterbits, bs, target, compress)
    }
  }

  /** What `flatten` leaves of a directory: names that can be listed, of nodes that exist. */
  predicate RefersInside(n: NodeSpec, count: nat) {
    n.PlainSpec? && n.content.Dir? ==>
      n.content.parent < count
      && forall i :: 0 <= i < |n.content.children| ==> n.content.children[i].node < count && ValidName(n.content.children[i].name)
  }

  /**
   The nodes, and what stands for the encoders that are not modelled: superblock, codec
   records, prefix dictionary, and `head(i, slots, firsts)` for inode `i` with its xattrs.
   */
  datatype BuildSpec = BuildSpec(
    nodes: seq<NodeSpec>, blkszbits: nat, superblock: nat -> seq<byte>, cfgs: seq<byte>, dict: seq<byte>,
    head: (nat, seq<MetaSlot>, seq<nat>) -> seq<byte>)
  {
    function Bs(): (bs: nat)
      ensures bs > 0
    {
      Pow2(blkszbits)
    }
    /** Block sizes of the format, and encoders that keep to the sizes planned for them. */
    ghost predicate Valid() {
      && 9 <= blkszbits <= 16
      && (forall total: nat :: |superblock(total)| == 128)
      && (forall i :: 0 <= i < |nodes| ==> nodes[i].Valid() && RefersInside(nodes[i], |nodes|))
      && (forall i: nat, slots: seq<MetaSlot>, firsts: seq<nat> :: i < |nodes| ==> |head(i, slots, firsts)| == nodes[i].HeadLen())
    }
  }

  // ----- Planning the nodes

  /** What `plan_body` leaves of a node. */
  datatype Planned = Planned(plan: Plan, left: Plan, inline: Option<seq<byte>>, body: InodeBody)

  function InlineLen(inline: Option<seq<byte>>): nat {
    if inline.Some? then |inline.value| else 0
  }

  /** A short file goes behind its inode if it fits there. */
  predicate InlinesTail(n: NodeSpec, bs: nat)
    requires n.PlainSpec?
  {
    n.content.Flat? && 0 < |n.content.data| < bs && |n.content.data| <= SatSub(bs, n.bodySize + n.xattrLen)
  }

  function ChunkSize(n: NodeSpec, bs: nat): nat
    requires n.PlainSpec? && n.content.Chunks?
  {
    bs * Pow2(n.content.chunkBits)
  }

  /** The sizes of a node that is not compressed. */
  function PlainBody(n: NodeSpec, bs: nat): InodeBody
    requires n.PlainSpec?
  {
    InodeBody(n.bodySize, n.xattrLen, if InlinesTail(n, bs) then |n.content.data| else 0,
              if n.content.Chunks? then |n.content.chunks| * EntryLen(n.content.indexed) else 0, 0)
  }

  ghost predicate PlannedFor(n: NodeSpec, bs: nat, p: Planned) {
    match n
    case PlainSpec(content, _, _) =>
      && p.body == PlainBody(n, bs)
      && (content.Chunks? ==> content.chunkBits <= 31 && WellCut(content.chunks, ChunkSize(n, bs)))
    case FileSpec(src, _, _, lclusterbits, _, format, ztail, bodySize, xattrLen) =>
      && lclusterbits <= 4 && WfPlan(n.ConfigFor(bs), src, p.plan)
      && (if Inlines(p.plan, ztail, format, bodySize, xattrLen, bs)
          then p.left == Stolen(p.plan) && p.inline == Some(p.plan.pclusters[|p.plan.pclusters| - 1].rawCompressed)
          else p.left == p.plan && p.inline == None)
      && p.body == InodeBody(bodySize, xattrLen, 0, 0, PlannedSize(format, bodySize, xattrLen, |p.plan.entries|, InlineLen(p.inline)))
  }

  /** Why a node cannot be planned. */
  ghost predicate NodeCanFail(n: NodeSpec, bs: nat) {
    match n
    case FileSpec(src, _, _, lclusterbits, _, _, _, _, _) => lclusterbits > 4 || PlanCanFail(n.ConfigFor(bs), src)
    case PlainSpec(content, _, _) =>
      content.Chunks? && (content.chunkBits > 31 || !WellCut(content.chunks, ChunkSize(n, bs)))
  }

  /** `plan_body`. */
  method PlanNode(n: NodeSpec, bs: nat) returns (r: Result<Planned>)
    requires bs > 0
    ensures r.Ok? ==> PlannedFor(n, bs, r.value)
    ensures r.Err? ==> NodeCanFail(n, bs)
  {
    hide WfPlan, PlanCanFail, PlannedSize, Inlines, ConfigOf, Stolen, WellCut, Pow2, PlainBody;
    match n
    case PlainSpec(content, _, _) =>
      if content.Chunks? {
        if content.chunkBits > 31 {
          return Err;
        }
        var total := TotalChunkedSize(content.chunks, ChunkSize(n, bs));
        if total.Err? {
          return Err;
        }
      }
      return Ok(Planned(Plan([], [], 0), Plan([], [], 0), None, PlainBody(n, bs)));
    case FileSpec(src, algo, compress, lclusterbits, target, format, ztail, bodySize, xattrLen) =>
      var plan := PlanCompressedPclusters(src, algo, lclusterbits, bs, target, compress);
      if plan.Err? {
        return Err;
      }
      var left, inline, zmapBytes := PlanTail(plan.value, ztail, format, bodySize, xattrLen, bs);
      return Ok(Planned(plan.value, left, inline, InodeBody(bodySize, xattrLen, 0, 0, zmapBytes)));
  }

  method PlanNodes(nodes: seq<NodeSpec>, bs: nat) returns (r: Result<seq<Planned>>)
    requires bs > 0
    ensures r.Ok? ==> |r.value| == |nodes| && forall i :: 0 <= i < |nodes| ==> PlannedFor(nodes[i], bs, r.value[i])
    ensures r.Err? ==> exists i :: 0 <= i < |nodes| && NodeCanFail(nodes[i], bs)
  {
    hide PlannedFor, NodeCanFail;
    var ps: seq<Planned> := [];
    for i := 0 to |nodes|
      invariant |ps| == i && forall k :: 0 <= k < i ==> PlannedFor(nodes[k], bs, ps[k])
    {
      var p := PlanNode(nodes[i], bs);
      if p.Err? {
        return Err;
      }
      ps := ps + [p.value];
    }
    return Ok(ps);
  }

  function Bodies(ps: seq<Planned>): (bodies: seq<InodeBody>)
    ensures |bodies| == |ps| && forall i :: 0 <= i < |ps| ==> bodies[i] == ps[i].body
  {
    seq(|ps|, i requires 0 <= i < |ps| => ps[i].body)
  }

  // ----- The data of the nodes

  /** The entries of a directory, by the NIDs of their slots. */
  function EntriesFor(n: NodeSpec, slots: seq<MetaSlot>): (es: seq<DirEntry>)
    requires n.PlainSpec? && n.content.Dir? && RefersInside(n, |slots|)
    ensures |es| == |n.content.children|
  {
    seq(|n.content.children|, i requires 0 <= i < |n.content.children| && RefersInside(n, |slots|) =>
      var c := n.content.children[i];
      DirEntry(slots[c.node].Nid(), c.fileType, c.name))
  }

  /** The data of a node that is neither compressed nor a directory. */
  function PlainData(n: NodeSpec, bs: nat): NodeData
    requires n.PlainSpec?
  {
    match n.content
    case Flat(data) => if InlinesTail(n, bs) then NoData else FlatData(data)
    case Link(target) => SymlinkData(target)
    case Chunks(chunks, _, _) => ChunkedData(chunks)
    case _ => NoData
  }

  /** The data blocks of node `i`: its pclusters, the blocks that list its children, or its content. */
  ghost predicate DataFor(spec: BuildSpec, p: Planned, slots: seq<MetaSlot>, i: nat, d: NodeData)
    requires i < |spec.nodes| == |slots| && RefersInside(spec.nodes[i], |slots|)
  {
    var n := spec.nodes[i];
    if n.FileSpec? then d == CompressedData(p.left.pclusters)
    else if n.content.Dir? then
      d.DirData? && ListsAs(slots[i].Nid(), slots[n.content.parent].Nid(), EntriesFor(n, slots), spec.Bs(), d.blocks)
    else d == PlainData(n, spec.Bs())
  }

  /** An entry of directory `i` fits no block. */
  ghost predicate DirCanFail(spec: BuildSpec, slots: seq<MetaSlot>, i: nat)
    requires i < |spec.nodes| == |slots| && RefersInside(spec.nodes[i], |slots|)
  {
    var n := spec.nodes[i];
    && n.PlainSpec? && n.content.Dir?
    && TooLarge(AllEntries(slots[i].Nid(), slots[n.content.parent].Nid(), EntriesFor(n, slots)), spec.Bs())
  }

  lemma ListedIf(groups: seq<seq<DirEntry>>, nid: nat, parentNid: nat, children: seq<DirEntry>, bs: nat, blocks: seq<seq<byte>>)
    requires IsPacking(groups, AllEntries(nid, parentNid, children), bs) && |blocks| == |groups|
    requires forall k :: 0 <= k < |groups| ==> FitsBlock(groups[k], bs) && blocks[k] == BlockBytes(groups[k], bs)
    ensures ListsAs(nid, parentNid, children, bs, blocks)
  {
    hide IsPacking, FitsBlock, BlockBytes, AllEntries;
    assert Packs(groups, nid, parentNid, children, bs, blocks);
  }

  /** The data of one node. */
  method EncodeData(spec: BuildSpec, p: Planned, slots: seq<MetaSlot>, i: nat) returns (r: Result<NodeData>)
    requires i < |spec.nodes| == |slots| && RefersInside(spec.nodes[i], |slots|)
    ensures r.Ok? ==> DataFor(spec, p, slots, i, r.value)
    ensures r.Err? ==> DirCanFail(spec, slots, i)
  {
    hide ListsAs, TooLarge, IsPacking, AllEntries, Pow2, PlainData, EntriesFor;
    var n := spec.nodes[i];
    if n.FileSpec? {
      return Ok(CompressedData(p.left.pclusters));
    }
    if !n.content.Dir? {
      return Ok(PlainData(n, spec.Bs()));
    }
    var parent := n.content.parent;
    var blocks, groups := EncodeDirBlocks(slots[i].Nid(), slots[parent].Nid(), EntriesFor(n, slots), spec.Bs());
    if blocks.Err? {
      return Err;
    }
    ListedIf(groups, slots[i].Nid(), slots[parent].Nid(), EntriesFor(n, slots), spec.Bs(), blocks.value);
    return Ok(DirData(blocks.value));
  }

  method EncodeDatas(spec: BuildSpec, ps: seq<Planned>, slots: seq<MetaSlot>) returns (r: Result<seq<NodeData>>)
    requires |spec.nodes| == |ps| == |slots| && forall i :: 0 <= i < |spec.nodes| ==> RefersInside(spec.nodes[i], |slots|)
    ensures r.Ok? ==> |r.value| == |ps| && forall i :: 0 <= i < |ps| ==> DataFor(spec, ps[i], slots, i, r.value[i])
    ensures r.Err? ==> exists i :: 0 <= i < |ps| && DirCanFail(spec, slots, i)
  {
    hide DataFor, DirCanFail, RefersInside;
    var datas: seq<NodeData> := [];
    for i := 0 to |ps|
      invariant |datas| == i && forall k :: 0 <= k < i ==> DataFor(spec, ps[k], slots, k, datas[k])
    {
      var d := EncodeData(spec, ps[i], slots, i);
      if d.Err? {
        return Err;
      }
      datas := datas + [d.value];
    }
    return Ok(datas);
  }

  // ----- Encoding the slots

  function TrailerFor(n: NodeSpec, blkszbits: nat, p: Planned, addrs: seq<nat>): TrailerPlan
    requires n.FileSpec?
  {
    TrailerPlan(n.algo, n.lclusterbits, blkszbits, n.format, p.plan.entries, addrs, p.inline)
  }

  /** Where the inode of a slot lies. */
  function NodeAt(blkszbits: nat, slot: MetaSlot): nat {
    MetaBlkaddr(Pow2(blkszbits)) * Pow2(blkszbits) + slot.start
  }

  /** What follows the inode of a node that is not compressed. */
  function TailBytes(n: NodeSpec, bs: nat, first: nat): seq<byte>
    requires n.PlainSpec? && bs > 0
  {
    match n.content
    case Flat(data) => if InlinesTail(n, bs) then data else []
    case Chunks(chunks, _, indexed) => MapBytes(ChunkAddrs(chunks, first, bs), indexed)
    case _ => []
  }

  /** One node of a build: its plan, its data, its slot, its first block, its inode and, compressed, its trailer. */
  datatype NodeBuilt = NodeBuilt(
    node: NodeSpec, blkszbits: nat, p: Planned, data: NodeData, slot: MetaSlot, first: nat, head: seq<byte>, t: TrailerPlan)
  {
    function Bs(): (bs: nat)
      ensures bs > 0
    {
      Pow2(blkszbits)
    }
    /** Where its inode lies. */
    function At(): nat {
      NodeAt(blkszbits, slot)
    }
    /** Where its body and xattrs end. */
    function HeadEnd(): nat {
      At() + |head|
    }
    /** All its slot holds. */
    ghost function Bytes(): seq<byte>
      requires node.FileSpec? ==> t.Valid()
    {
      head + if node.FileSpec? then TrailerBytes(t, HeadEnd()) else TailBytes(node, Bs(), first)
    }
  }

  /** The parts of a file fit together: the trailer carries the plan, and the addresses its pclusters got. */
  ghost predicate FileIs(f: NodeBuilt) {
    && f.node.FileSpec? && PlannedFor(f.node, f.Bs(), f.p) && |f.head| == f.node.HeadLen()
    && f.data == CompressedData(f.p.left.pclusters)
    && f.t == TrailerFor(f.node, f.blkszbits, f.p, f.t.addrs) && f.t.Valid()
    && AddressesFrom(f.t.addrs, f.p.left.pclusters, f.first) && (forall a :: a in f.t.addrs ==> a <= U32_MAX)
  }

  lemma StolenLast(plan: Plan)
    requires plan.pclusters != []
    ensures |Stolen(plan).pclusters| == |plan.pclusters|
  {
  }

  lemma TailIsDecided(n: NodeSpec, bs: nat, p: Planned)
    requires n.FileSpec? && PlannedFor(n, bs, p)
    ensures TailDecided(p.plan, p.left, p.inline) && |p.left.pclusters| == |p.plan.pclusters|
    ensures WfPlan(n.ConfigFor(bs), n.src, p.plan) && n.lclusterbits <= 4
    ensures p.body == InodeBody(n.bodySize, n.xattrLen, 0, 0, PlannedSize(n.format, n.bodySize, n.xattrLen, |p.plan.entries|, InlineLen(p.inline)))
  {
    hide WfPlan, PlannedSize, ConfigOf, Stolen;
    if p.plan.pclusters != [] {
      StolenLast(p.plan);
    }
  }

  /** Every entry of a plan names one of its pclusters. */
  lemma EntriesNamePclusters(c: Config, src: seq<byte>, plan: Plan, i: nat)
    requires WfPlan(c, src, plan) && i < |plan.entries|
    ensures plan.entries[i].pclusterIdx < |plan.pclusters|
  {
    hide Maximal, Contiguous, Planner.NLclusters, GoodPcluster;
    var k := OwnerOf(c, src, plan, i);
    var p := plan.pclusters[k];
    assert EntriesOf(plan.entries, p.head, p.nLclusters, p.ctype, k);
  }

  lemma TrailerIsValid(n: NodeSpec, blkszbits: nat, p: Planned, addrs: seq<nat>)
    requires n.FileSpec? && blkszbits <= 16 && PlannedFor(n, Pow2(blkszbits), p) && |addrs| == |p.left.pclusters|
    ensures TrailerFor(n, blkszbits, p, addrs).Valid()
  {
    hide WfPlan, PlannedFor, NodeSpec.ConfigFor, Pow2;
    TailIsDecided(n, Pow2(blkszbits), p);
    forall i | 0 <= i < |p.plan.entries|
      ensures p.plan.entries[i].pclusterIdx < |addrs|
    {
      EntriesNamePclusters(n.ConfigFor(Pow2(blkszbits)), n.src, p.plan, i);
    }
  }

  lemma AddressesInRange(addrs: seq<nat>, ps: seq<PclusterPlan>)
    requires |addrs| == |ps| && forall k :: 0 <= k < |ps| ==> addrs[k] <= U32_MAX
    ensures forall a :: a in addrs ==> a <= U32_MAX
  {
  }

  /** The inode of one compressed file with its trailer. It fills the slot planned for it. */
  method EncodeFile(n: NodeSpec, blkszbits: nat, p: Planned, slot: MetaSlot, first: nat, head: seq<byte>)
    returns (bytes: seq<byte>, t: TrailerPlan)
    requires n.FileSpec? && blkszbits <= 16 && PlannedFor(n, Pow2(blkszbits), p)
    requires first + BlocksOf(p.left.pclusters) <= U32_MAX && |head| == n.HeadLen()
    requires NodeAt(blkszbits, slot) % 32 == 0
    ensures var f := NodeBuilt(n, blkszbits, p, CompressedData(p.left.pclusters), slot, first, head, t);
            FileIs(f) && bytes == f.Bytes()
    ensures |bytes| == p.body.Span()
  {
    hide PlannedFor, WfPlan, TrailerBytes, PlannedSize, BlocksOf, NodeSpec.ConfigFor, TrailerPlan.Valid, AddressesFrom, Pow2, MetaBlkaddr;
    var placed := AssignBlocks(p.left.pclusters, first);
    var addrs := placed.value.0;
    SameNumber(addrs, p.left.pclusters, first);
    AddressesInRange(addrs, p.left.pclusters);
    t := TrailerFor(n, blkszbits, p, addrs);
    TrailerIsValid(n, blkszbits, p, addrs);
    TailIsDecided(n, Pow2(blkszbits), p);
    ghost var f := NodeBuilt(n, blkszbits, p, CompressedData(p.left.pclusters), slot, first, head, t);
    var zmap := EncodeZmapTrailer(t, NodeAt(blkszbits, slot) + |head|);
    PlannedSizeIsEmitted(t, f.At(), n.bodySize, n.xattrLen);
    bytes := head + zmap;
  }

  /** Everything the builder decided. */
  datatype Build = Build(ps: seq<Planned>, slots: seq<MetaSlot>, datas: seq<NodeData>, firsts: seq<nat>, ts: seq<TrailerPlan>)

  predicate IsComplete(spec: BuildSpec, b: Build) {
    |spec.nodes| == |b.ps| == |b.slots| == |b.datas| == |b.firsts| == |b.ts|
  }

  function NodeOf(spec: BuildSpec, b: Build, i: nat): NodeBuilt
    requires IsComplete(spec, b) && i < |spec.nodes|
  {
    NodeBuilt(spec.nodes[i], spec.blkszbits, b.ps[i], b.datas[i], b.slots[i], b.firsts[i], spec.head(i, b.slots, b.firsts), b.ts[i])
  }

  /** The slot holds all of the node, and no more. */
  ghost predicate SlotHolds(f: NodeBuilt, bytes: seq<byte>) {
    (f.node.FileSpec? ==> FileIs(f)) && bytes == f.Bytes() && |bytes| == f.slot.span
  }

  lemma SlotStarts(blkszbits: nat, bodies: seq<InodeBody>, slots: seq<MetaSlot>, i: nat)
    requires Pow2(blkszbits) % 32 == 0 && IsLayout(Pow2(blkszbits), bodies, slots) && i < |slots|
    ensures slots[i].span == bodies[i].Span() && NodeAt(blkszbits, slots[i]) % 32 == 0
  {
    var bs := Pow2(blkszbits);
    hide MetaBlkaddr, InodeBody.Span;
    assert SlotFits(bs, bodies, slots, i);
    BlockStartsSlot(MetaBlkaddr(bs), bs);
    SumAligned32(MetaBlkaddr(bs) * bs, slots[i].start);
  }

  lemma SumAligned32(a: nat, b: nat)
    requires a % 32 == 0 && b % 32 == 0
    ensures (a + b) % 32 == 0
  {
  }

  lemma BlocksWhole(spec: BuildSpec)
    requires 9 <= spec.blkszbits
    ensures spec.Bs() % 32 == 0
  {
    hide Pow2;
    Pow2Add(5, spec.blkszbits - 5);
    ThirtyTwoTimes(Pow2(spec.blkszbits - 5));
  }

  lemma ThirtyTwoTimes(k: nat)
    ensures Pow2(5) * k % 32 == 0
  {
    assert Pow2(5) == 32;
  }

  /** What a file's pclusters may take is what the assignment gave them. */
  lemma FileBlocksFit(n: NodeData, first: nat, rs: seq<Region>, bs: nat, start: nat, total: nat)
    requires bs > 0 && n.CompressedData? && Settled(n, first, rs, bs, start, total)
    ensures first + BlocksOf(n.pclusters) <= total
  {
    hide PiecesOf, Place;
    var ps := PiecesOf(n, bs);
    assert |ps| == |n.pclusters| by { PieceCount(n, bs); }
    SameBlocks(n, bs, |n.pclusters|);
    assert ps[..|ps|] == ps && n.pclusters[..|n.pclusters|] == n.pclusters;
  }

  lemma PieceCount(n: NodeData, bs: nat)
    requires bs > 0 && n.CompressedData?
    ensures |PiecesOf(n, bs)| == |n.pclusters|
  {
  }

  /** The inode of any other node with what follows it. It fills the slot planned for it. */
  method EncodePlain(n: NodeSpec, bs: nat, p: Planned, first: nat, head: seq<byte>) returns (bytes: seq<byte>)
    requires n.PlainSpec? && bs > 0 && PlannedFor(n, bs, p) && |head| == n.HeadLen()
    ensures bytes == head + TailBytes(n, bs, first) && |bytes| == p.body.Span()
  {
    hide MapBytes, WellCut, ChunkAddrs, Pow2;
    bytes := head;
    match n.content
    case Flat(data) =>
      if InlinesTail(n, bs) {
        bytes := bytes + data;
      } else {
        assert bytes + [] == bytes;
      }
    case Chunks(chunks, _, indexed) =>
      var addrs := AssignChunks(chunks, first, bs);
      var buf := EncodeChunkmap(addrs, indexed);
      bytes := bytes + buf;
    case _ =>
      assert bytes + [] == bytes;
  }

  /** All slots, in order. */
  method EncodeSlots(spec: BuildSpec, ps: seq<Planned>, slots: seq<MetaSlot>, datas: seq<NodeData>, firsts: seq<nat>)
    returns (slotBytes: seq<seq<byte>>, ts: seq<TrailerPlan>)
    requires spec.Valid() && |spec.nodes| == |ps| == |slots| == |datas| == |firsts|
    requires IsLayout(spec.Bs(), Bodies(ps), slots)
    requires forall i :: 0 <= i < |ps| ==> PlannedFor(spec.nodes[i], spec.Bs(), ps[i])
    requires forall i :: 0 <= i < |ps| ==> DataFor(spec, ps[i], slots, i, datas[i])
    requires forall i :: 0 <= i < |ps| && spec.nodes[i].FileSpec? ==> firsts[i] + BlocksOf(ps[i].left.pclusters) <= U32_MAX
    ensures |slotBytes| == |ts| == |slots|
    ensures forall i :: 0 <= i < |slots| ==> SlotHolds(NodeOf(spec, Build(ps, slots, datas, firsts, ts), i), slotBytes[i])
  {
    hide PlannedFor, IsLayout, BlocksOf, FileIs, Pow2, NodeAt, InodeBody.Span, NodeBuilt.Bytes, TrailerPlan.Valid, ListsAs, TailBytes, SlotHolds;
    BlocksWhole(spec);
    slotBytes := [];
    ts := [];
    for i := 0 to |spec.nodes|
      invariant |slotBytes| == |ts| == i
      invariant forall k :: 0 <= k < i ==>
        SlotHolds(NodeBuilt(spec.nodes[k], spec.blkszbits, ps[k], datas[k], slots[k], firsts[k], spec.head(k, slots, firsts), ts[k]),
                  slotBytes[k])
    {
      SlotStarts(spec.blkszbits, Bodies(ps), slots, i);
      var head := spec.head(i, slots, firsts);
      var bytes, t := head, TrailerPlan(Lz4, 0, 0, Legacy, [], [], None);
      if spec.nodes[i].FileSpec? {
        bytes, t := EncodeFile(spec.nodes[i], spec.blkszbits, ps[i], slots[i], firsts[i], head);
        DataOfFile(spec, ps[i], slots, i, datas[i]);
      } else {
        bytes := EncodePlain(spec.nodes[i], spec.Bs(), ps[i], firsts[i], head);
      }
      SlotHoldsIf(NodeBuilt(spec.nodes[i], spec.blkszbits, ps[i], datas[i], slots[i], firsts[i], head, t), bytes);
      slotBytes := slotBytes + [bytes];
      ts := ts + [t];
    }
  }

  lemma DataOfFile(spec: BuildSpec, p: Planned, slots: seq<MetaSlot>, i: nat, d: NodeData)
    requires i < |spec.nodes| == |slots| && RefersInside(spec.nodes[i], |slots|) && DataFor(spec, p, slots, i, d)
    ensures spec.nodes[i].FileSpec? ==> d == CompressedData(p.left.pclusters)
  {
  }

  lemma SlotHoldsIf(f: NodeBuilt, bytes: seq<byte>)
    requires |bytes| == f.slot.span
    requires f.node.FileSpec? ==> FileIs(f) && bytes == f.Bytes()
    requires f.node.PlainSpec? ==> bytes == f.head + TailBytes(f.node, f.Bs(), f.first)
    ensures SlotHolds(f, bytes)
  {
    hide FileIs, TailBytes, TrailerBytes, NodeAt;
  }
}
