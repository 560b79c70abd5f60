/**
 Block assignment and emission of a whole image: what the builder writes never overlaps,
 so every region still holds what was written into it when the build ends.
 */
module ImageBuilder {
  import opened Basics
  import opened MetaLayout
  import opened Planner

  const EROFS_SUPER_OFFSET: nat := 1024
  const SB_AREA_END: nat := 1152

  // ----- Regions of an image

  datatype Region = Region(off: nat, bytes: seq<byte>) {
    function End(): nat {
      off + |bytes|
    }
  }

  /** Each region ends before any later one starts. */
  ghost predicate Ordered(rs: seq<Region>) {
    forall i, j :: 0 <= i < j < |rs| ==> rs[i].End() <= rs[j].off
  }

  ghost predicate Within(rs: seq<Region>, lo: nat, hi: nat) {
    forall i :: 0 <= i < |rs| ==> lo <= rs[i].off && rs[i].End() <= hi
  }

  /** The image holds the region. */
  ghost predicate Holds(img: seq<byte>, r: Region) {
    r.End() <= |img| && img[r.off..r.End()] == r.bytes
  }

  ghost predicate HoldsAll(img: seq<byte>, rs: seq<Region>) {
    forall i :: 0 <= i < |rs| ==> Holds(img, rs[i])
  }

  /** No region covers byte `k`. */
  ghost predicate Outside(rs: seq<Region>, k: nat) {
    forall i :: 0 <= i < |rs| ==> k < rs[i].off || rs[i].End() <= k
  }

  lemma OrderedConcat(a: seq<Region>, b: seq<Region>, lo: nat, mid: nat, hi: nat)
    requires Ordered(a) && Within(a, lo, mid) && Ordered(b) && Within(b, mid, hi) && lo <= mid <= hi
    ensures Ordered(a + b) && Within(a + b, lo, hi)
  {
  }

  /** Writing ordered regions one after another loses none of them. */
  method WriteRegions(img: array<byte>, rs: seq<Region>)
    requires Ordered(rs) && Within(rs, 0, img.Length)
    modifies img
    ensures HoldsAll(img[..], rs)
    ensures forall k :: 0 <= k < img.Length && Outside(rs, k) ==> img[k] == old(img[k])
  {
    ghost var was := img[..];
    for i := 0 to |rs|
      invariant HoldsAll(img[..], rs[..i])
      invariant forall k :: 0 <= k < img.Length && Outside(rs, k) ==> img[k] == was[k]
    {
      ghost var before := img[..];
      CopyFromSlice(img, rs[i].off, rs[i].bytes);
      NextHeld(before, img[..], rs, i);
      Untouched(before, img[..], rs[i]);
    }
    assert rs[..|rs|] == rs;
  }

  lemma Untouched(before: seq<byte>, after: seq<byte>, r: Region)
    requires r.End() <= |before| && after == before[..r.off] + r.bytes + before[r.End()..]
    ensures |after| == |before|
    ensures forall k :: 0 <= k < |before| && !(r.off <= k < r.End()) ==> after[k] == before[k]
  {
  }

  lemma NextHeld(before: seq<byte>, after: seq<byte>, rs: seq<Region>, i: nat)
    requires Ordered(rs) && i < |rs| && HoldsAll(before, rs[..i]) && rs[i].End() <= |before|
    requires after == before[..rs[i].off] + rs[i].bytes + before[rs[i].End()..]
    ensures HoldsAll(after, rs[..i + 1])
  {
    forall j | 0 <= j <= i
      ensures Holds(after, rs[j])
    {
      var r := rs[j];
      if j < i {
        assert Holds(before, rs[..i][j]);
        assert after[r.off..r.End()] == before[r.off..r.End()];
      } else {
        assert after[r.off..r.End()] == r.bytes;
      }
    }
  }

  // ----- Data blocks

  /** The payload of one node, as far as it takes data blocks. */
  datatype NodeData =
    | DirData(blocks: seq<seq<byte>>)
    | FlatData(data: seq<byte>)
    | SymlinkData(target: seq<byte>)
    | ChunkedData(chunks: seq<Option<seq<byte>>>)
    | CompressedData(pclusters: seq<PclusterPlan>)
    | NoData

  /** Bytes, and the blocks set aside for them. */
  datatype DataPiece = DataPiece(bytes: seq<byte>, blocks: nat)

  function ChunkPieces(chunks: seq<Option<seq<byte>>>, bs: nat): seq<DataPiece>
    requires bs > 0
  {
    if chunks == [] then []
    else
      var last := chunks[|chunks| - 1];
      ChunkPieces(chunks[..|chunks| - 1], bs)
      + match last case None => [] case Some(buf) => [DataPiece(buf, Max(DivCeil(|buf|, bs), 1))]
  }

  function PiecesOf(n: NodeData, bs: nat): seq<DataPiece>
    requires bs > 0
  {
    match n
    case DirData(blocks) => seq(|blocks|, i requires 0 <= i < |blocks| => DataPiece(blocks[i], 1))
    case FlatData(data) => if data == [] then [] else [DataPiece(data, DivCeil(|data|, bs))]
    case SymlinkData(target) => [DataPiece(target, 1)]
    case ChunkedData(chunks) => ChunkPieces(chunks, bs)
    case CompressedData(ps) => seq(|ps|, i requires 0 <= i < |ps| => DataPiece(ps[i].blockBytes, ps[i].blockCount))
    case NoData => []
  }

  function Blocks(ps: seq<DataPiece>): nat {
    if ps == [] then 0 else Blocks(ps[..|ps| - 1]) + ps[|ps| - 1].blocks
  }

  /** Pieces laid out one behind the other from block `first` on. */
  function Place(ps: seq<DataPiece>, first: nat, bs: nat): (rs: seq<Region>)
    ensures |rs| == |ps|
  {
    if ps == [] then []
    else
      var front := ps[..|ps| - 1];
      Place(front, first, bs) + [Region((first + Blocks(front)) * bs, ps[|ps| - 1].bytes)]
  }

  ghost predicate PiecesFit(ps: seq<DataPiece>, bs: nat) {
    forall i :: 0 <= i < |ps| ==> |ps[i].bytes| <= ps[i].blocks * bs
  }

  /** What the planner and the directory encoder guarantee about a node's payload. */
  ghost predicate NodeFits(n: NodeData, bs: nat) {
    match n
    case DirData(blocks) => forall i :: 0 <= i < |blocks| ==> |blocks[i]| <= bs
    case CompressedData(ps) => forall i :: 0 <= i < |ps| ==> |ps[i].blockBytes| <= ps[i].blockCount * bs
    case _ => true
  }

  lemma {:induction false} ChunkPiecesFit(chunks: seq<Option<seq<byte>>>, bs: nat)
    requires bs > 0
    ensures PiecesFit(ChunkPieces(chunks, bs), bs)
    decreases |chunks|
  {
    hide DivCeil;
    if chunks != [] {
      var last := chunks[|chunks| - 1];
      ChunkPiecesFit(chunks[..|chunks| - 1], bs);
      if last.Some? {
        DivCeilBounds(|last.value|, bs);
        MulMono(DivCeil(|last.value|, bs), Max(DivCeil(|last.value|, bs), 1), bs);
      }
    }
  }

  lemma NodePiecesFit(n: NodeData, bs: nat)
    requires bs > 0 && NodeFits(n, bs) && (n.SymlinkData? ==> |n.target| <= bs)
    ensures PiecesFit(PiecesOf(n, bs), bs)
  {
    hide DivCeil;
    if n.ChunkedData? {
      ChunkPiecesFit(n.chunks, bs);
    } else if n.FlatData? {
      DivCeilBounds(|n.data|, bs);
    }
  }

  lemma {:induction false} BlocksConcat(a: seq<DataPiece>, b: seq<DataPiece>)
    ensures Blocks(a + b) == Blocks(a) + Blocks(b)
    decreases |b|
  {
    if b == [] {
      assert a + b == a;
    } else {
      assert (a + b)[..|a + b| - 1] == a + b[..|b| - 1];
      BlocksConcat(a, b[..|b| - 1]);
    }
  }

  lemma {:induction false} PlaceConcat(a: seq<DataPiece>, b: seq<DataPiece>, first: nat, bs: nat)
    ensures Place(a + b, first, bs) == Place(a, first, bs) + Place(b, first + Blocks(a), bs)
    decreases |b|
  {
    if b == [] {
      assert a + b == a;
    } else {
      var front := b[..|b| - 1];
      assert (a + b)[..|a + b| - 1] == a + front;
      PlaceConcat(a, front, first, bs);
      BlocksConcat(a, front);
    }
  }

  /** Placed pieces are ordered, and lie in the blocks set aside for them. */
  lemma {:induction false} PlaceOrdered(ps: seq<DataPiece>, first: nat, bs: nat)
    requires PiecesFit(ps, bs)
    ensures Ordered(Place(ps, first, bs)) && Within(Place(ps, first, bs), first * bs, (first + Blocks(ps)) * bs)
    decreases |ps|
  {
    if ps != [] {
      var front, last := ps[..|ps| - 1], ps[|ps| - 1];
      PlaceOrdered(front, first, bs);
      var a := first + Blocks(front);
      Distribute(a, last.blocks, bs);
      MulMono(first, a, bs);
      var tail := [Region(a * bs, last.bytes)];
      OrderedConcat(Place(front, first, bs), tail, first * bs, a * bs, (a + last.blocks) * bs);
    }
  }

  // ----- The assignment

  /** The pieces of the directories, or of everything else, in node order. */
  function PiecesWhere(nodes: seq<NodeData>, dirs: bool, bs: nat): seq<DataPiece>
    requires bs > 0
  {
    if nodes == [] then []
    else
      var last := nodes[|nodes| - 1];
      PiecesWhere(nodes[..|nodes| - 1], dirs, bs) + if last.DirData? == dirs then PiecesOf(last, bs) else []
  }

  /** Directories first, then the rest. */
  function AllPieces(nodes: seq<NodeData>, bs: nat): seq<DataPiece>
    requires bs > 0
  {
    PiecesWhere(nodes, true, bs) + PiecesWhere(nodes, false, bs)
  }

  /** Why an assignment can be refused. */
  ghost predicate AssignCanFail(nodes: seq<NodeData>, bs: nat, start: nat)
    requires bs > 0
  {
    || (exists i :: 0 <= i < |nodes| && nodes[i].SymlinkData? && |nodes[i].target| > bs)
    || start + Blocks(AllPieces(nodes, bs)) > U32_MAX
    || start + Blocks(AllPieces(nodes, bs)) < 2
  }

  /** The node got the blocks from `first` on. */
  ghost predicate NodePlaced(n: NodeData, first: nat, rs: seq<Region>, bs: nat)
    requires bs > 0
  {
    forall r :: r in Place(PiecesOf(n, bs), first, bs) ==> r in rs
  }

  /** And they lie between `start` and `end`. */
  ghost predicate Settled(n: NodeData, first: nat, rs: seq<Region>, bs: nat, start: nat, end: nat)
    requires bs > 0
  {
    NodePlaced(n, first, rs, bs) && start <= first && first + Blocks(PiecesOf(n, bs)) <= end
  }

  lemma StillSettled(n: NodeData, first: nat, rs: seq<Region>, more: seq<Region>, bs: nat, start: nat, end: nat, after: nat)
    requires bs > 0 && Settled(n, first, rs, bs, start, end) && end <= after
    ensures Settled(n, first, rs + more, bs, start, after) && Settled(n, first, more + rs, bs, start, after)
  {
    hide PiecesOf, Place, Blocks;
  }

  lemma JustSettled(n: NodeData, rs: seq<Region>, bs: nat, start: nat, next: nat)
    requires bs > 0 && start <= next
    ensures Settled(n, next, rs + Place(PiecesOf(n, bs), next, bs), bs, start, next + Blocks(PiecesOf(n, bs)))
  {
    hide PiecesOf, Place, Blocks;
  }

  lemma EarlierStart(n: NodeData, first: nat, rs: seq<Region>, bs: nat, start: nat, earlier: nat, end: nat)
    requires bs > 0 && Settled(n, first, rs, bs, start, end) && earlier <= start
    ensures Settled(n, first, rs, bs, earlier, end)
  {
    hide PiecesOf, Place, Blocks, NodePlaced;
  }

  /** One node's blocks, from `next` on. */
  method PlaceNode(n: NodeData, next: nat, bs: nat) returns (rs: seq<Region>, after: nat)
    requires bs > 0
    ensures rs == Place(PiecesOf(n, bs), next, bs) && after == next + Blocks(PiecesOf(n, bs))
  {
    var ps := PiecesOf(n, bs);
    rs := [];
    after := next;
    for i := 0 to |ps|
      invariant rs == Place(ps[..i], next, bs) && after == next + Blocks(ps[..i])
    {
      assert ps[..i + 1][..i] == ps[..i];
      rs := rs + [Region(after * bs, ps[i].bytes)];
      after := after + ps[i].blocks;
    }
    assert ps[..|ps|] == ps;
  }

  /** One pass over the nodes: the directories, or everything else. */
  method PlacePass(nodes: seq<NodeData>, dirs: bool, start: nat, bs: nat, firsts0: seq<nat>)
    returns (rs: seq<Region>, next: nat, firsts: seq<nat>)
    requires bs > 0 && |firsts0| == |nodes|
    ensures rs == Place(PiecesWhere(nodes, dirs, bs), start, bs)
    ensures next == start + Blocks(PiecesWhere(nodes, dirs, bs)) && |firsts| == |nodes|
    ensures forall i :: 0 <= i < |nodes| ==>
              if nodes[i].DirData? == dirs then Settled(nodes[i], firsts[i], rs, bs, start, next) else firsts[i] == firsts0[i]
  {
    hide PiecesOf, Place, Blocks, Settled;
    rs, next, firsts := [], start, firsts0;
    PlaceNothing(start, bs);
    for i := 0 to |nodes|
      invariant |firsts| == |nodes| && start <= next
      invariant rs == Place(PiecesWhere(nodes[..i], dirs, bs), start, bs)
      invariant next == start + Blocks(PiecesWhere(nodes[..i], dirs, bs))
      invariant forall j :: 0 <= j < i && nodes[j].DirData? == dirs ==> Settled(nodes[j], firsts[j], rs, bs, start, next)
      invariant forall j :: 0 <= j < |nodes| && (j >= i || nodes[j].DirData? != dirs) ==> firsts[j] == firsts0[j]
    {
      PiecesUpTo(nodes, dirs, bs, i);
      if nodes[i].DirData? == dirs {
        var here, after := PlaceNode(nodes[i], next, bs);
        PlaceConcat(PiecesWhere(nodes[..i], dirs, bs), PiecesOf(nodes[i], bs), start, bs);
        BlocksConcat(PiecesWhere(nodes[..i], dirs, bs), PiecesOf(nodes[i], bs));
        JustSettled(nodes[i], rs, bs, start, next);
        forall j | 0 <= j < i && nodes[j].DirData? == dirs
          ensures Settled(nodes[j], firsts[j], rs + here, bs, start, after)
        {
          StillSettled(nodes[j], firsts[j], rs, here, bs, start, next, after);
        }
        rs := rs + here;
        firsts := firsts[i := next];
        next := after;
      }
    }
    assert nodes[..|nodes|] == nodes;
  }

  lemma PiecesUpTo(nodes: seq<NodeData>, dirs: bool, bs: nat, i: nat)
    requires bs > 0 && i < |nodes|
    ensures PiecesWhere(nodes[..i + 1], dirs, bs)
            == PiecesWhere(nodes[..i], dirs, bs) + if nodes[i].DirData? == dirs then PiecesOf(nodes[i], bs) else []
    ensures nodes[i].DirData? != dirs ==> PiecesWhere(nodes[..i + 1], dirs, bs) == PiecesWhere(nodes[..i], dirs, bs)
  {
    hide PiecesOf;
    assert nodes[..i + 1][..i] == nodes[..i];
  }

  lemma PlaceNothing(start: nat, bs: nat)
    ensures Place([], start, bs) == [] && Blocks([]) == 0
  {
  }

  /** Passes 3 and 4: directory blocks, then data, chunk and pcluster blocks. */
  method AssignDataBlocks(nodes: seq<NodeData>, start: nat, bs: nat)
    returns (r: Result<(seq<Region>, nat, seq<nat>)>)
    requires bs > 0
    ensures r.Err? ==> AssignCanFail(nodes, bs, start)
    ensures r.Ok? ==>
              var (rs, total, firsts) := r.value;
              && rs == Place(AllPieces(nodes, bs), start, bs)
              && 2 <= total == start + Blocks(AllPieces(nodes, bs)) <= U32_MAX && |firsts| == |nodes|
              && (forall i :: 0 <= i < |nodes| && nodes[i].SymlinkData? ==> |nodes[i].target| <= bs)
              && forall i :: 0 <= i < |nodes| ==> Settled(nodes[i], firsts[i], rs, bs, start, total)
  {
    hide PiecesOf, Place, PiecesWhere, Settled, Blocks;
    var none := seq(|nodes|, _ => 0);
    var dirRegions, afterDirs, dirFirsts := PlacePass(nodes, true, start, bs, none);
    for i := 0 to |nodes|
      invariant forall j :: 0 <= j < i && nodes[j].SymlinkData? ==> |nodes[j].target| <= bs
    {
      if nodes[i].SymlinkData? && |nodes[i].target| > bs {
        return Err;
      }
    }
    var rest, total, firsts := PlacePass(nodes, false, afterDirs, bs, dirFirsts);
    PlaceConcat(PiecesWhere(nodes, true, bs), PiecesWhere(nodes, false, bs), start, bs);
    BlocksConcat(PiecesWhere(nodes, true, bs), PiecesWhere(nodes, false, bs));
    if total < 2 || total > U32_MAX {
      return Err;
    }
    var rs := dirRegions + rest;
    forall i | 0 <= i < |nodes|
      ensures Settled(nodes[i], firsts[i], rs, bs, start, total)
    {
      if nodes[i].DirData? {
        StillSettled(nodes[i], firsts[i], dirRegions, rest, bs, start, afterDirs, total);
      } else {
        EarlierStart(nodes[i], firsts[i], rest, bs, afterDirs, start, total);
        StillSettled(nodes[i], firsts[i], rest, dirRegions, bs, start, total, total);
      }
    }
    return Ok((rs, total, firsts));
  }

  // ----- The whole image

  function MetaBlkaddr(bs: nat): nat
    requires bs > 0
  {
    DivCeil(SB_AREA_END, bs)
  }

  /** First block behind the metadata area. */
  function DataAreaStart(slots: seq<MetaSlot>, bs: nat): nat
    requires bs > 0
  {
    MetaBlkaddr(bs) + DivCeil(AlignUp(MetaEnd(slots), 32), bs)
  }

  /** Superblock, codec records and prefix dictionary, in front of the metadata area. */
  function GapRegions(sb: seq<byte>, cfgs: seq<byte>, dict: seq<byte>): seq<Region> {
    [Region(EROFS_SUPER_OFFSET, sb)]
    + (if cfgs == [] then [] else [Region(SB_AREA_END, cfgs)])
    + (if dict == [] then [] else [Region(AlignUp(SB_AREA_END + |cfgs|, XATTR_ENTRY_ALIGN), dict)])
  }

  predicate GapOverflows(cfgs: seq<byte>, dict: seq<byte>, metaBase: nat) {
    || (cfgs != [] && SB_AREA_END + |cfgs| > metaBase)
    || (dict != [] && AlignUp(SB_AREA_END + |cfgs|, XATTR_ENTRY_ALIGN) + |dict| > metaBase)
  }

  /** Every inode with its trailers, at the address its slot names. */
  function SlotRegions(slots: seq<MetaSlot>, slotBytes: seq<seq<byte>>, metaBase: nat): (rs: seq<Region>)
    requires |slots| == |slotBytes|
    ensures |rs| == |slots|
  {
    seq(|slots|, i requires 0 <= i < |slots| && |slots| == |slotBytes| => Region(metaBase + slots[i].start, slotBytes[i]))
  }

  function AllRegions(sb: seq<byte>, cfgs: seq<byte>, dict: seq<byte>, slots: seq<MetaSlot>, slotBytes: seq<seq<byte>>,
                      data: seq<Region>, bs: nat): seq<Region>
    requires bs > 0 && |slots| == |slotBytes|
  {
    GapRegions(sb, cfgs, dict) + SlotRegions(slots, slotBytes, MetaBlkaddr(bs) * bs) + data
  }

  lemma GapOrdered(sb: seq<byte>, cfgs: seq<byte>, dict: seq<byte>, metaBase: nat)
    requires |sb| == 128 && SB_AREA_END <= metaBase && !GapOverflows(cfgs, dict, metaBase)
    ensures Ordered(GapRegions(sb, cfgs, dict)) && Within(GapRegions(sb, cfgs, dict), 0, metaBase)
  {
    hide AlignUp;
    AlignUpBounds(SB_AREA_END + |cfgs|, XATTR_ENTRY_ALIGN);
  }

  lemma AlignUpBounds(n: nat, d: nat)
    requires d > 0
    ensures n <= AlignUp(n, d)
  {
    DivCeilBounds(n, d);
  }

  function MetaEnd(slots: seq<MetaSlot>): nat {
    if slots == [] then 0 else slots[|slots| - 1].End()
  }

  lemma SlotsOrdered(bodies: seq<InodeBody>, slots: seq<MetaSlot>, slotBytes: seq<seq<byte>>, bs: nat, base: nat)
    requires bs > 0 && IsLayout(bs, bodies, slots) && |slotBytes| == |slots|
    requires forall i :: 0 <= i < |slots| ==> |slotBytes[i]| == slots[i].span
    ensures var rs := SlotRegions(slots, slotBytes, base);
            Ordered(rs) && Within(rs, base, base + MetaEnd(slots))
  {
    hide IsLayout;
    var rs := SlotRegions(slots, slotBytes, base);
    forall i, j | 0 <= i < j < |rs|
      ensures rs[i].End() <= rs[j].off
    {
      SlotsDisjoint(bs, bodies, slots, i, j);
    }
    forall i | 0 <= i < |rs|
      ensures base <= rs[i].off && rs[i].End() <= base + MetaEnd(slots)
    {
      if i < |rs| - 1 {
        SlotsDisjoint(bs, bodies, slots, i, |slots| - 1);
      }
    }
  }

  lemma {:induction false} PiecesWhereFit(nodes: seq<NodeData>, dirs: bool, bs: nat)
    requires bs > 0
    requires forall i :: 0 <= i < |nodes| ==> NodeFits(nodes[i], bs) && (nodes[i].SymlinkData? ==> |nodes[i].target| <= bs)
    ensures PiecesFit(PiecesWhere(nodes, dirs, bs), bs)
    decreases |nodes|
  {
    hide PiecesOf, NodeFits;
    if nodes != [] {
      PiecesWhereFit(nodes[..|nodes| - 1], dirs, bs);
      NodePiecesFit(nodes[|nodes| - 1], bs);
    }
  }

  lemma AllPiecesFit(nodes: seq<NodeData>, bs: nat)
    requires bs > 0 && PiecesFit(PiecesWhere(nodes, true, bs), bs) && PiecesFit(PiecesWhere(nodes, false, bs), bs)
    ensures PiecesFit(AllPieces(nodes, bs), bs)
  {
    hide PiecesWhere;
  }

  lemma RegionsInOrder(sb: seq<byte>, cfgs: seq<byte>, dict: seq<byte>, slots: seq<MetaSlot>, slotBytes: seq<seq<byte>>,
                       data: seq<Region>, bs: nat)
    requires bs > 0 && |slots| == |slotBytes|
    ensures AllRegions(sb, cfgs, dict, slots, slotBytes, data, bs)
            == GapRegions(sb, cfgs, dict) + SlotRegions(slots, slotBytes, MetaBlkaddr(bs) * bs) + data
  {
    hide MetaBlkaddr, GapRegions;
  }

  /** The three areas of an image follow each other. */
  lemma AreasInOrder(slots: seq<MetaSlot>, bs: nat)
    requires bs > 0
    ensures SB_AREA_END <= MetaBlkaddr(bs) * bs
    ensures MetaBlkaddr(bs) * bs + MetaEnd(slots) <= DataAreaStart(slots, bs) * bs
  {
    hide DivCeil, AlignUp;
    DivCeilBounds(SB_AREA_END, bs);
    AlignUpBounds(MetaEnd(slots), 32);
    DivCeilBounds(AlignUp(MetaEnd(slots), 32), bs);
    Distribute(MetaBlkaddr(bs), DivCeil(AlignUp(MetaEnd(slots), 32), bs), bs);
  }

  /**
   No two regions of an image overlap, and all lie inside it: superblock, codec records,
   dictionary, inodes with their trailers, directory and data blocks.
   */
  lemma RegionsAreDisjoint(bodies: seq<InodeBody>, slots: seq<MetaSlot>, slotBytes: seq<seq<byte>>, pieces: seq<DataPiece>,
                           sb: seq<byte>, cfgs: seq<byte>, dict: seq<byte>, bs: nat, base: nat, start: nat)
    requires bs > 0 && IsLayout(bs, bodies, slots) && |slotBytes| == |slots| && |sb| == 128
    requires forall i :: 0 <= i < |slots| ==> |slotBytes[i]| == slots[i].span
    requires PiecesFit(pieces, bs) && SB_AREA_END <= base && base + MetaEnd(slots) <= start * bs
    requires !GapOverflows(cfgs, dict, base)
    ensures var rs := GapRegions(sb, cfgs, dict) + SlotRegions(slots, slotBytes, base) + Place(pieces, start, bs);
            Ordered(rs) && Within(rs, 0, (start + Blocks(pieces)) * bs)
  {
    hide *;
    GapOrdered(sb, cfgs, dict, base);
    SlotsOrdered(bodies, slots, slotBytes, bs, base);
    PlaceOrdered(pieces, start, bs);
    MulMono(start, start + Blocks(pieces), bs);
    var gap, meta, data := GapRegions(sb, cfgs, dict), SlotRegions(slots, slotBytes, base), Place(pieces, start, bs);
    OrderedConcat(gap, meta, 0, base, base + MetaEnd(slots));
    WithinMore(gap + meta, 0, base + MetaEnd(slots), start * bs);
    OrderedConcat(gap + meta, data, 0, start * bs, (start + Blocks(pieces)) * bs);
  }

  lemma WithinMore(rs: seq<Region>, lo: nat, hi: nat, more: nat)
    requires Within(rs, lo, hi) && hi <= more
    ensures Within(rs, lo, more)
  {
  }

  /**
   Pass 5: a zeroed image, and every region written into it. `data` and `total` are the
   block assignment; `slotBytes` are the encoded inodes with their trailers.
   */
  method EmitImage(bodies: seq<InodeBody>, slots: seq<MetaSlot>, slotBytes: seq<seq<byte>>, nodes: seq<NodeData>,
                   sb: seq<byte>, cfgs: seq<byte>, dict: seq<byte>, bs: nat, data: seq<Region>, total: nat)
    returns (r: Result<array<byte>>)
    requires bs > 0 && IsLayout(bs, bodies, slots) && |slotBytes| == |slots| && |sb| == 128
    requires forall i :: 0 <= i < |slots| ==> |slotBytes[i]| == slots[i].span
    requires forall i :: 0 <= i < |nodes| ==> NodeFits(nodes[i], bs) && (nodes[i].SymlinkData? ==> |nodes[i].target| <= bs)
    requires data == Place(AllPieces(nodes, bs), DataAreaStart(slots, bs), bs)
    requires total == DataAreaStart(slots, bs) + Blocks(AllPieces(nodes, bs))
    ensures r.Err? <==> GapOverflows(cfgs, dict, MetaBlkaddr(bs) * bs)
    ensures r.Ok? ==>
              && fresh(r.value) && r.value.Length == total * bs
              && HoldsAll(r.value[..], AllRegions(sb, cfgs, dict, slots, slotBytes, data, bs))
              && forall k :: 0 <= k < total * bs && Outside(AllRegions(sb, cfgs, dict, slots, slotBytes, data, bs), k) ==>
                   r.value[k] == 0
  {
    hide IsLayout, MetaBlkaddr, DataAreaStart, AllPieces, Place, AllRegions, NodeFits, Ordered, Within, HoldsAll, Outside;
    if GapOverflows(cfgs, dict, MetaBlkaddr(bs) * bs) {
      return Err;
    }
    var img := new byte[total * bs](_ => 0);
    AreasInOrder(slots, bs);
    PiecesWhereFit(nodes, true, bs);
    PiecesWhereFit(nodes, false, bs);
    AllPiecesFit(nodes, bs);
    RegionsAreDisjoint(bodies, slots, slotBytes, AllPieces(nodes, bs), sb, cfgs, dict, bs, MetaBlkaddr(bs) * bs,
                       DataAreaStart(slots, bs));
    RegionsInOrder(sb, cfgs, dict, slots, slotBytes, data, bs);
    WriteRegions(img, AllRegions(sb, cfgs, dict, slots, slotBytes, data, bs));
    return Ok(img);
  }
}
