/**
 From a built image to the nodes that are not compressed: flat files and links, chunked
 files, directories. What was placed for one of them is what the reader finds.
 */
module NodeReads {
  import opened Basics
  import opened Bits
  import opened BuildThenRead
  import opened ChunkFile
  import opened Directory
  import opened DirectoryRead
  import opened DirectoryRoundTrip
  import opened FileContent
  import opened ImageBuilder
  import opened Images
  import opened ReadPath

  /** Piece `k` of a placed node is there. */
  lemma PieceHeld(dev: seq<byte>, n: NodeData, first: nat, rs: seq<Region>, bs: nat, k: nat)
    requires bs > 0 && NodePlaced(n, first, rs, bs) && HoldsAll(dev, rs) && k < |PiecesOf(n, bs)|
    ensures var ps := PiecesOf(n, bs);
            Holds(dev, Region((first + Blocks(ps[..k])) * bs, ps[k].bytes))
  {
    hide PiecesOf, Blocks, Holds;
    var ps := PiecesOf(n, bs);
    PlacedAt(ps, first, bs, k);
    assert Place(ps, first, bs)[k] in rs;
  }

  // ----- Flat files and links

  /** A file whose bytes lie in a row from its first block on reads as them. */
  lemma PlainFileReads(img: Image, inode: Inode, data: seq<byte>, off: nat, n: nat, level: nat)
    requires inode.layout == FlatPlain && inode.size == |data| && off + n <= |data|
    requires data != [] ==> ReadAt(img.dev, inode.rawU * img.BlockSize(), |data|) == Ok(data)
    ensures ReadFile(img, inode, off, n, level) == Ok(data[off..off + n])
  {
    hide ReadFile, Image.BlockSize, DivCeil;
    FlatFileContent(img, inode, level);
    ReadsAreSlices(img, inode, 0, inode.size, off, n, level);
  }

  /** A file of one short block behind its inode reads as that block. */
  lemma InlineFileReads(img: Image, inode: Inode, data: seq<byte>, off: nat, n: nat, level: nat)
    requires inode.layout == FlatInline && inode.size == |data| && 0 < |data| <= img.BlockSize() && off + n <= |data|
    requires ReadAt(img.dev, img.BodyEnd(inode), |data|) == Ok(data)
    ensures ReadFile(img, inode, off, n, level) == Ok(data[off..off + n])
  {
    hide ReadFile, Image.BlockSize, Image.BodyEnd;
    DivModUnique(|data| + img.BlockSize() - 1, img.BlockSize(), 1, |data| - 1);
    FlatFileContent(img, inode, level);
    assert [] + data == data;
    ReadsAreSlices(img, inode, 0, inode.size, off, n, level);
  }

  // ----- Chunked files

  /** The address of every chunk: behind the blocks of those before it. */
  function ChunkAddrs(chunks: seq<Option<seq<byte>>>, first: nat, bs: nat): (addrs: seq<nat>)
    requires bs > 0
    ensures |addrs| == |chunks|
  {
    if chunks == [] then []
    else
      var front := chunks[..|chunks| - 1];
      ChunkAddrs(front, first, bs)
      + [if chunks[|chunks| - 1].None? then EROFS_NULL_ADDR else first + Blocks(ChunkPieces(front, bs))]
  }

  /** The chunk arm of the data pass. */
  method AssignChunks(chunks: seq<Option<seq<byte>>>, first: nat, bs: nat) returns (addrs: seq<nat>)
    requires bs > 0
    ensures addrs == ChunkAddrs(chunks, first, bs)
  {
    hide DivCeil;
    var next := first;
    addrs := [];
    for i := 0 to |chunks|
      invariant addrs == ChunkAddrs(chunks[..i], first, bs) && next == first + Blocks(ChunkPieces(chunks[..i], bs))
    {
      assert chunks[..i + 1][..i] == chunks[..i];
      ChunkPiecesStep(chunks[..i + 1], bs);
      if chunks[i].None? {
        addrs := addrs + [EROFS_NULL_ADDR];
      } else {
        addrs := addrs + [next];
        next := next + Max(DivCeil(|chunks[i].value|, bs), 1);
      }
    }
    assert chunks[..|chunks|] == chunks;
  }

  /** The piece of a chunk, of at least one block, or none if it is missing. */
  function OwnPieces(chunk: Option<seq<byte>>, bs: nat): seq<DataPiece>
    requires bs > 0
  {
    match chunk case None => [] case Some(buf) => [DataPiece(buf, Max(DivCeil(|buf|, bs), 1))]
  }

  lemma ChunkPiecesSnoc(chunks: seq<Option<seq<byte>>>, bs: nat)
    requires bs > 0 && chunks != []
    ensures ChunkPieces(chunks, bs) == ChunkPieces(chunks[..|chunks| - 1], bs) + OwnPieces(chunks[|chunks| - 1], bs)
  {
    hide DivCeil;
  }

  /** One chunk more adds the blocks of its piece. */
  lemma ChunkPiecesStep(chunks: seq<Option<seq<byte>>>, bs: nat)
    requires bs > 0 && chunks != []
    ensures var front, last := chunks[..|chunks| - 1], chunks[|chunks| - 1];
            Blocks(ChunkPieces(chunks, bs))
            == Blocks(ChunkPieces(front, bs)) + if last.None? then 0 else Max(DivCeil(|last.value|, bs), 1)
  {
    hide DivCeil, ChunkPieces, Blocks;
    var front, last := chunks[..|chunks| - 1], chunks[|chunks| - 1];
    ChunkPiecesSnoc(chunks, bs);
    BlocksConcat(ChunkPieces(front, bs), OwnPieces(last, bs));
    if last.Some? {
      OnePiece(DataPiece(last.value, Max(DivCeil(|last.value|, bs), 1)));
    } else {
      NoPieces();
    }
  }

  lemma NoPieces()
    ensures Blocks([]) == 0
  {
  }

  lemma OnePiece(p: DataPiece)
    ensures Blocks([p]) == p.blocks
  {
    assert [p][..0] == [];
  }

  /** The pieces of the chunks up to `i` come first, and then chunk `i`'s own. */
  lemma {:induction false} ChunkPieceAt(chunks: seq<Option<seq<byte>>>, bs: nat, i: nat)
    requires bs > 0 && i < |chunks| && chunks[i].Some?
    ensures var k := |ChunkPieces(chunks[..i], bs)|;
            && k < |ChunkPieces(chunks, bs)| && ChunkPieces(chunks, bs)[..k] == ChunkPieces(chunks[..i], bs)
            && ChunkPieces(chunks, bs)[k].bytes == chunks[i].value
            && Blocks(ChunkPieces(chunks[..i], bs)) < Blocks(ChunkPieces(chunks, bs))
    decreases |chunks|
  {
    hide DivCeil, ChunkPieces, Blocks;
    var n: nat := |chunks| - 1;
    ChunkPiecesStep(chunks, bs);
    ChunkPiecesSnoc(chunks, bs);
    var front, own := ChunkPieces(chunks[..n], bs), OwnPieces(chunks[n], bs);
    if i < n {
      assert chunks[..n][..i] == chunks[..i];
      ChunkPieceAt(chunks[..n], bs, i);
      var k := |ChunkPieces(chunks[..i], bs)|;
      assert (front + own)[..k] == front[..k];
    } else {
      assert (front + own)[..|front|] == front;
    }
  }

  lemma {:induction false} ChunkAddrAt(chunks: seq<Option<seq<byte>>>, first: nat, bs: nat, i: nat)
    requires bs > 0 && i < |chunks|
    ensures ChunkAddrs(chunks, first, bs)[i]
            == if chunks[i].None? then EROFS_NULL_ADDR else first + Blocks(ChunkPieces(chunks[..i], bs))
    decreases |chunks|
  {
    hide ChunkPieces, Blocks;
    var n := |chunks| - 1;
    if i < n {
      assert chunks[..n][..i] == chunks[..i];
      ChunkAddrAt(chunks[..n], first, bs, i);
    }
  }

  /** The chunks of a placed file lie where its map says. */
  lemma ChunksWereWritten(img: Image, inode: Inode, chunks: seq<Option<seq<byte>>>, first: nat, rs: seq<Region>, total: nat)
    requires NodePlaced(ChunkedData(chunks), first, rs, img.BlockSize()) && HoldsAll(img.dev, rs)
    requires first + Blocks(PiecesOf(ChunkedData(chunks), img.BlockSize())) <= total <= U32_MAX
    requires var indexed := ChunkInfoOf(img, inode).usesIndexes;
             var bytes := MapBytes(ChunkAddrs(chunks, first, img.BlockSize()), indexed);
             ReadAt(img.dev, img.BodyEnd(inode), |bytes|) == Ok(bytes)
    ensures ChunksOnDevice(img, inode, chunks, ChunkAddrs(chunks, first, img.BlockSize()))
  {
    hide ChunkInfoOf, MapBytes, Image.BodyEnd, Image.BlockSize, NodePlaced, HoldsAll, ChunkPieces, ChunkAddrs, Blocks;
    var bs, n := img.BlockSize(), ChunkedData(chunks);
    assert PiecesOf(n, bs) == ChunkPieces(chunks, bs);
    forall i | 0 <= i < |chunks|
      ensures var addr := ChunkAddrs(chunks, first, bs)[i];
              if chunks[i].None? then addr == EROFS_NULL_ADDR
              else addr < EROFS_NULL_ADDR && img.Read(0, addr * bs, |chunks[i].value|) == Ok(chunks[i].value)
    {
      ChunkAddrAt(chunks, first, bs, i);
      if chunks[i].Some? {
        ChunkPieceAt(chunks, bs, i);
        PieceHeld(img.dev, n, first, rs, bs, |ChunkPieces(chunks[..i], bs)|);
      }
    }
  }

  /** `total_chunked_size`: the size of the file, or a refusal of chunks that are badly cut. */
  method TotalChunkedSize(chunks: seq<Option<seq<byte>>>, chunkSize: nat) returns (r: Result<nat>)
    ensures r == if WellCut(chunks, chunkSize) then Ok(|ChunksContent(chunks, chunkSize)|) else Err
  {
    hide ChunksContent;
    var total := 0;
    for i := 0 to |chunks|
      invariant forall k :: 0 <= k < i && chunks[k].Some? ==>
        |chunks[k].value| <= chunkSize && (k + 1 < |chunks| ==> |chunks[k].value| == chunkSize)
      invariant |ChunksContent(chunks, chunkSize)| == total + |ChunksContent(chunks[i..], chunkSize)|
    {
      ContentStep(chunks, chunkSize, i);
      match chunks[i]
      case Some(buf) =>
        if i + 1 != |chunks| && |buf| != chunkSize {
          return Err;
        }
        if |buf| > chunkSize {
          return Err;
        }
        total := total + |buf|;
      case None =>
        total := total + chunkSize;
    }
    NoChunks(chunks[|chunks|..], chunkSize);
    assert chunks[0..] == chunks;
    return Ok(total);
  }

  // ----- Directories

  /** The blocks are a greedy packing of the dots and the children. */
  ghost predicate ListsAs(nid: nat, parentNid: nat, children: seq<DirEntry>, bs: nat, blocks: seq<seq<byte>>) {
    exists groups: seq<seq<DirEntry>> :: Packs(groups, nid, parentNid, children, bs, blocks)
  }

  ghost predicate Packs(groups: seq<seq<DirEntry>>, nid: nat, parentNid: nat, children: seq<DirEntry>, bs: nat, blocks: seq<seq<byte>>) {
    && IsPacking(groups, AllEntries(nid, parentNid, children), bs) && |blocks| == |groups|
    && forall k :: 0 <= k < |groups| ==> FitsBlock(groups[k], bs) && blocks[k] == BlockBytes(groups[k], bs)
  }

  /** Every child resolves to its inode, and no other name but the dots to any. */
  ghost predicate Resolves(img: Image, dir: Inode, children: seq<DirEntry>, name: seq<byte>) {
    && (forall i :: 0 <= i < |children| && children[i].name == name ==>
          LookupIn(img, ListDir(img, dir), name) == img.inodes(children[i].nid))
    && ((forall i :: 0 <= i < |children| ==> children[i].name != name) ==> LookupIn(img, ListDir(img, dir), name) == Err)
  }

  lemma {:induction false} OneBlockPieces(n: NodeData, bs: nat, k: nat)
    requires bs > 0 && n.DirData? && k <= |n.blocks|
    ensures Blocks(PiecesOf(n, bs)[..k]) == k
    decreases k
  {
    if k > 0 {
      assert PiecesOf(n, bs)[..k][..k - 1] == PiecesOf(n, bs)[..k - 1];
      OneBlockPieces(n, bs, k - 1);
    }
  }

  /** The blocks of a placed directory lie where its inode says. */
  lemma DirWasWritten(img: Image, dir: Inode, blocks: seq<seq<byte>>, rs: seq<Region>)
    requires NodePlaced(DirData(blocks), dir.rawU, rs, img.BlockSize()) && HoldsAll(img.dev, rs)
    requires dir.layout == FlatPlain && dir.size == |blocks| * img.BlockSize()
    requires forall k :: 0 <= k < |blocks| ==> |blocks[k]| == img.BlockSize()
    ensures BlocksAtInode(img, dir, blocks)
  {
    hide Image.BlockSize, NodePlaced, HoldsAll, Blocks;
    var bs, n := img.BlockSize(), DirData(blocks);
    forall k | 0 <= k < |blocks|
      ensures img.Read(0, dir.rawU * bs + k * bs, bs) == Ok(blocks[k])
    {
      PieceHeld(img.dev, n, dir.rawU, rs, bs, k);
      OneBlockPieces(n, bs, k);
      Distribute(dir.rawU, k, bs);
    }
  }

  /** A placed directory resolves its children and nothing else. */
  lemma PlacedDirResolves(img: Image, dir: Inode, nid: nat, parentNid: nat, children: seq<DirEntry>, blocks: seq<seq<byte>>,
                          rs: seq<Region>, name: seq<byte>)
    requires ListsAs(nid, parentNid, children, img.BlockSize(), blocks) && img.BlockSize() <= 0x1_0000
    requires NodePlaced(DirData(blocks), dir.rawU, rs, img.BlockSize()) && HoldsAll(img.dev, rs)
    requires dir.layout == FlatPlain && dir.size == |blocks| * img.BlockSize()
    requires nid < Pow2(64) && parentNid < Pow2(64) && Writable(children) && DistinctNames(children)
    requires name != [DOT] && name != [DOT, DOT]
    ensures ListDir(img, dir) == Ok(AllEntries(nid, parentNid, children))
    ensures Resolves(img, dir, children, name)
  {
    hide Image.BlockSize, NodePlaced, HoldsAll, IsPacking, AllEntries, FitsBlock, BlockBytes, Writable, DistinctNames, ListDir, LookupIn, Pow2;
    hide BlocksAtInode;
    var groups :| Packs(groups, nid, parentNid, children, img.BlockSize(), blocks);
    DirWasWritten(img, dir, blocks, rs);
    WrittenDirectoryResolves(img, dir, nid, parentNid, children, groups, blocks, name);
  }
}
