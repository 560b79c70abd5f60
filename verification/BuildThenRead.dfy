/**
 From a built image to a file read: what the builder emitted for one compressed inode is
 what the reader needs to find.
 */
module BuildThenRead {
  import opened Basics
  import opened Bits
  import opened ImageBuilder
  import opened Images
  import opened PlanIndex
  import opened Planner
  import opened ReadPath
  import opened Trailer
  import opened TrailerReadBack
  import opened WriteThenRead

  lemma {:induction false} PlacedAt(ps: seq<DataPiece>, first: nat, bs: nat, k: nat)
    requires k < |ps|
    ensures Place(ps, first, bs)[k] == Region((first + Blocks(ps[..k])) * bs, ps[k].bytes)
    decreases |ps|
  {
    if k < |ps| - 1 {
      assert ps[..|ps| - 1][..k] == ps[..k];
      PlacedAt(ps[..|ps| - 1], first, bs, k);
    }
  }

  lemma {:induction false} SameBlocks(n: NodeData, bs: nat, k: nat)
    requires bs > 0 && n.CompressedData? && k <= |n.pclusters|
    ensures Blocks(PiecesOf(n, bs)[..k]) == BlocksOf(n.pclusters[..k])
    decreases k
  {
    if k > 0 {
      var ps := PiecesOf(n, bs);
      assert ps[..k][..k - 1] == ps[..k - 1] && n.pclusters[..k][..k - 1] == n.pclusters[..k - 1];
      SameBlocks(n, bs, k - 1);
    }
  }

  /** What the last two stages of planning did to the plan. */
  ghost predicate TailDecided(plan: Plan, left: Plan, inline: Option<seq<byte>>) {
    || (left == plan && inline == None)
    || (plan.pclusters != [] && left == Stolen(plan)
        && inline == Some(plan.pclusters[|plan.pclusters| - 1].rawCompressed) && |inline.value| <= U16_MAX)
  }

  /** The pcluster blocks of node `i` lie where its addresses say. */
  lemma BlocksWereWritten(img: Image, t: TrailerPlan, c: Config, src: seq<byte>, plan: Plan, left: Plan,
                          nodes: seq<NodeData>, firsts: seq<nat>, rs: seq<Region>, i: nat)
    requires i < |nodes| == |firsts| && nodes[i] == CompressedData(left.pclusters)
    requires Carries(t, c, src, plan, firsts[i]) && TailDecided(plan, left, t.inline)
    requires c.blockSize == img.BlockSize()
    requires NodePlaced(nodes[i], firsts[i], rs, img.BlockSize()) && HoldsAll(img.dev, rs)
    ensures BlocksOnDevice(img, t, c, plan, firsts[i])
  {
    hide Carries, NodePlaced, HoldsAll, Image.BlockSize, PiecesOf, Config.Budget;
    var bs, first := img.BlockSize(), firsts[i];
    forall k | 0 <= k < |plan.pclusters| && !IsInlined(t, plan, k)
      ensures ReadAt(img.dev, AddressAt(c, first, k) * bs, c.Budget()) == Ok(plan.pclusters[k].blockBytes)
    {
      assert left.pclusters[k] == plan.pclusters[k] && left.pclusters[..k] == plan.pclusters[..k];
      BlocksBefore(t, c, src, plan, first, k);
      BlockHeld(img.dev, nodes, firsts, rs, bs, i, k);
      BlockLength(t, c, src, plan, first, k);
    }
  }

  lemma BlocksBefore(t: TrailerPlan, c: Config, src: seq<byte>, plan: Plan, first: nat, k: nat)
    requires Carries(t, c, src, plan, first) && k <= |plan.pclusters|
    ensures BlocksOf(plan.pclusters[..k]) == k * c.targetBlocks
  {
    forall j | 0 <= j < k
      ensures plan.pclusters[..k][j].blockCount == c.targetBlocks
    {
      GoodAt(t, c, src, plan, first, j);
    }
    EqualBlocks(plan.pclusters[..k], c.targetBlocks);
  }

  lemma BlockHeld(dev: seq<byte>, nodes: seq<NodeData>, firsts: seq<nat>, rs: seq<Region>, bs: nat, i: nat, k: nat)
    requires bs > 0 && i < |nodes| == |firsts| && nodes[i].CompressedData? && k < |nodes[i].pclusters|
    requires NodePlaced(nodes[i], firsts[i], rs, bs) && HoldsAll(dev, rs)
    ensures var r := Region((firsts[i] + BlocksOf(nodes[i].pclusters[..k])) * bs, nodes[i].pclusters[k].blockBytes);
            Holds(dev, r)
  {
    var ps := PiecesOf(nodes[i], bs);
    PlacedAt(ps, firsts[i], bs, k);
    SameBlocks(nodes[i], bs, k);
    assert Place(ps, firsts[i], bs)[k] in rs;
  }

  /** The trailer lies where the inode's body ends. */
  lemma TrailerWasWritten(dev: seq<byte>, at: nat, head: seq<byte>, t: TrailerPlan)
    requires t.Valid() && Holds(dev, Region(at, head + TrailerBytes(t, at + |head|)))
    ensures OnDevice(dev, t, at + |head|)
  {
    hide TrailerBytes;
    var tail := TrailerBytes(t, at + |head|);
    var whole := head + tail;
    SliceSlice(dev, at, at + |whole|, |head|, |whole|);
    assert whole[|head|..|whole|] == tail;
  }

  /**
   The whole way round. A file is planned, its tail perhaps inlined, its blocks assigned
   and its trailer encoded; an image that holds the inode's slot and the assigned regions
   reads back as the file, whatever range is asked for.
   */
  lemma BuiltReadsBack(img: Image, inode: Inode, t: TrailerPlan, c: Config, src: seq<byte>, plan: Plan, left: Plan,
                      head: seq<byte>, nodes: seq<NodeData>, firsts: seq<nat>, rs: seq<Region>, i: nat,
                      off: nat, n: nat, level: nat)
    // the plan, and the blocks it was given
    requires c.Valid() && WfPlan(c, src, plan) && TailDecided(plan, left, t.inline)
    requires i < |nodes| == |firsts| && nodes[i] == CompressedData(left.pclusters)
    requires AddressesFrom(t.addrs, left.pclusters, firsts[i])
    requires 0 < firsts[i] && forall a :: a in t.addrs ==> a <= U32_MAX
    // the trailer
    requires t.Valid() && t.entries == plan.entries && t.algo == c.algo && t.blkszbits == img.blkszbits
    requires c.blockSize == img.BlockSize() && c.lclusterSize == Pow2(t.blkszbits + t.lclusterbits)
    // the image
    requires NodePlaced(nodes[i], firsts[i], rs, img.BlockSize()) && HoldsAll(img.dev, rs)
    requires img.Iloc(inode.nid) + |head| == img.BodyEnd(inode)
    requires Holds(img.dev, Region(img.Iloc(inode.nid), head + TrailerBytes(t, img.BodyEnd(inode))))
    requires inode.size == |src| && inode.layout == if t.format == Legacy then CompressionLegacy else Compression
    requires img.zeroPadding && LawfulCodec(img, c) && SideConditions(t, c, |src|, plan, img.BodyEnd(inode))
    requires off + n <= |src|
    ensures ReadFile(img, inode, off, n, level) == Ok(src[off..off + n])
  {
    hide *;
    var first := firsts[i];
    CarriesIf(t, c, src, plan, left, first);
    InlineIf(t, plan, left);
    BlocksWereWritten(img, t, c, src, plan, left, nodes, firsts, rs, i);
    TrailerWasWritten(img.dev, img.Iloc(inode.nid), head, t);
    WrittenIf(img, inode, t, c, src, plan, first);
    WrittenReadsBack(img, inode, t, c, src, plan, first, off, n, level);
  }

  lemma CarriesIf(t: TrailerPlan, c: Config, src: seq<byte>, plan: Plan, left: Plan, first: nat)
    requires c.Valid() && WfPlan(c, src, plan) && TailDecided(plan, left, t.inline)
    requires AddressesFrom(t.addrs, left.pclusters, first) && 0 < first && forall a :: a in t.addrs ==> a <= U32_MAX
    requires t.Valid() && t.entries == plan.entries && t.algo == c.algo
    ensures Carries(t, c, src, plan, first)
  {
    hide *;
    LeftNumber(plan, left, t.inline);
    SameNumber(t.addrs, left.pclusters, first);
    forall k | 0 <= k < |t.addrs|
      ensures t.addrs[k] == AddressAt(c, first, k) <= U32_MAX
    {
      AddressIs(c, src, plan, left, t.addrs, first, k);
      assert t.addrs[k] in t.addrs;
    }
    CarriesWhen(t, c, src, plan, first);
  }

  lemma AddressIs(c: Config, src: seq<byte>, plan: Plan, left: Plan, addrs: seq<nat>, first: nat, k: nat)
    requires WfPlan(c, src, plan) && (left == plan || (plan.pclusters != [] && left == Stolen(plan)))
    requires AddressesFrom(addrs, left.pclusters, first) && k < |plan.pclusters|
    ensures |addrs| == |plan.pclusters| && addrs[k] == AddressAt(c, first, k)
  {
    hide WfPlan, AddressesFrom, Stolen;
    AddressesAreConsecutive(c, src, plan, left, addrs, first, k);
  }

  lemma LeftNumber(plan: Plan, left: Plan, inline: Option<seq<byte>>)
    requires TailDecided(plan, left, inline)
    ensures |left.pclusters| == |plan.pclusters|
    ensures left == plan || (plan.pclusters != [] && left == Stolen(plan))
  {
  }

  lemma CarriesWhen(t: TrailerPlan, c: Config, src: seq<byte>, plan: Plan, first: nat)
    requires t.Valid() && c.Valid() && WfPlan(c, src, plan)
    requires t.entries == plan.entries && t.algo == c.algo && 0 < first
    requires |t.addrs| == |plan.pclusters| && forall k :: 0 <= k < |t.addrs| ==> t.addrs[k] == AddressAt(c, first, k) <= U32_MAX
    ensures Carries(t, c, src, plan, first)
  {
    hide WfPlan, TrailerPlan.Valid, Config.Valid;
  }

  lemma SameNumber(addrs: seq<nat>, ps: seq<PclusterPlan>, first: nat)
    requires AddressesFrom(addrs, ps, first)
    ensures |addrs| == |ps|
  {
  }

  lemma InlineIf(t: TrailerPlan, plan: Plan, left: Plan)
    requires TailDecided(plan, left, t.inline)
    ensures InlineIsLast(t, plan)
  {
  }

  lemma WrittenIf(img: Image, inode: Inode, t: TrailerPlan, c: Config, src: seq<byte>, plan: Plan, first: nat)
    requires Carries(t, c, src, plan, first) && InlineIsLast(t, plan)
    requires c.blockSize == img.BlockSize() && t.blkszbits == img.blkszbits
    requires c.lclusterSize == Pow2(t.blkszbits + t.lclusterbits) && inode.size == |src|
    requires inode.layout == if t.format == Legacy then CompressionLegacy else Compression
    requires t.Valid() && OnDevice(img.dev, t, img.BodyEnd(inode)) && BlocksOnDevice(img, t, c, plan, first)
    requires img.zeroPadding && LawfulCodec(img, c)
    ensures WrittenFile(img, inode, t, c, src, plan, first)
  {
    hide Carries, InlineIsLast, OnDevice, BlocksOnDevice, LawfulCodec, Image.BlockSize, Image.BodyEnd, Pow2;
  }
}
