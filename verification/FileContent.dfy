/**
 What `read_file` adds up to: one byte sequence per file. Every read is a slice of it,
 and for each layout it is the sequence the layout says it is.
 */
module FileContent {
  import opened Basics
  import opened Bits
  import opened Images
  import opened ReadPath
  import opened ZMapReader

  // ----- Reads are slices of one sequence

  /** What one turn of the loop contributes. */
  function PieceBytes(block: Result<seq<byte>>, p: Piece): Result<seq<byte>> {
    if block.Ok? && p.from + p.take <= |block.value| then Ok(block.value[p.from..p.from + p.take]) else Err
  }

  lemma BlocksStep(img: Image, inode: Inode, zmap: Option<ZMap>, off: nat, n: nat, level: nat)
    requires off + n <= inode.size && n > 0
    ensures var p := PieceAt(inode.size, img.BlockSize(), off, n);
            ReadBlocks(img, inode, zmap, off, n, level)
            == Both(PieceBytes(ReadDataBlock(img, inode, zmap, p.block, p.valid, level), p),
                    ReadBlocks(img, inode, zmap, off + p.take, n - p.take, level))
  {
    hide ReadDataBlock, PieceAt, Image.BlockSize;
  }

  lemma NoBlocks(img: Image, inode: Inode, zmap: Option<ZMap>, off: nat, level: nat)
    requires off <= inode.size
    ensures ReadBlocks(img, inode, zmap, off, 0, level) == Ok([])
  {
  }

  /** Cutting a run of blocks anywhere, inside a block or between two, changes nothing. */
  lemma {:induction false} ReadBlocksSplit(img: Image, inode: Inode, zmap: Option<ZMap>, off: nat, a: nat, b: nat, level: nat)
    requires off + a + b <= inode.size
    ensures ReadBlocks(img, inode, zmap, off, a + b, level)
            == Both(ReadBlocks(img, inode, zmap, off, a, level), ReadBlocks(img, inode, zmap, off + a, b, level))
    decreases a
  {
    hide *;
    var bs := img.BlockSize();
    NoBlocks(img, inode, zmap, off, level);
    NoBlocks(img, inode, zmap, off + a, level);
    BothWithNothing(ReadBlocks(img, inode, zmap, off, a, level));
    BothWithNothing(ReadBlocks(img, inode, zmap, off, b, level));
    if a > 0 && b > 0 {
      var left := PieceAt(inode.size, bs, off, a);
      PieceOfLess(inode.size, bs, off, a + b, a);
      if PieceAt(inode.size, bs, off, a + b).take <= a {
        ReadBlocksSplit(img, inode, zmap, off + left.take, a - left.take, b, level);
        SplitBehindPiece(img, inode, zmap, off, a, b, level);
      } else {
        SplitInPiece(img, inode, zmap, off, a, b, level);
      }
    }
  }

  /** The cut lies behind the first piece: it is read whole, and the cut moves to what follows. */
  lemma SplitBehindPiece(img: Image, inode: Inode, zmap: Option<ZMap>, off: nat, a: nat, b: nat, level: nat)
    requires off + a + b <= inode.size && a > 0 && b > 0
    requires PieceAt(inode.size, img.BlockSize(), off, a + b).take <= a
    requires var t := PieceAt(inode.size, img.BlockSize(), off, a).take;
             ReadBlocks(img, inode, zmap, off + t, a - t + b, level)
             == Both(ReadBlocks(img, inode, zmap, off + t, a - t, level), ReadBlocks(img, inode, zmap, off + t + (a - t), b, level))
    ensures ReadBlocks(img, inode, zmap, off, a + b, level)
            == Both(ReadBlocks(img, inode, zmap, off, a, level), ReadBlocks(img, inode, zmap, off + a, b, level))
  {
    hide *;
    var bs := img.BlockSize();
    var left := PieceAt(inode.size, bs, off, a);
    PieceOfLess(inode.size, bs, off, a + b, a);
    BlocksStep(img, inode, zmap, off, a + b, level);
    BlocksStep(img, inode, zmap, off, a, level);
    var block := ReadDataBlock(img, inode, zmap, left.block, left.valid, level);
    BothAssociates(PieceBytes(block, left), ReadBlocks(img, inode, zmap, off + left.take, a - left.take, level),
                   ReadBlocks(img, inode, zmap, off + a, b, level));
  }

  /** The cut lies inside the first piece. */
  lemma SplitInPiece(img: Image, inode: Inode, zmap: Option<ZMap>, off: nat, a: nat, b: nat, level: nat)
    requires off + a + b <= inode.size && a > 0 && b > 0
    requires PieceAt(inode.size, img.BlockSize(), off, a + b).take > a
    ensures ReadBlocks(img, inode, zmap, off, a + b, level)
            == Both(ReadBlocks(img, inode, zmap, off, a, level), ReadBlocks(img, inode, zmap, off + a, b, level))
  {
    hide *;
    var bs := img.BlockSize();
    var whole, left, right := PieceAt(inode.size, bs, off, a + b), PieceAt(inode.size, bs, off, a), PieceAt(inode.size, bs, off + a, b);
    PieceOfLess(inode.size, bs, off, a + b, a);
    PieceInside(inode.size, bs, off, a, b);
    BlocksStep(img, inode, zmap, off, a + b, level);
    BlocksStep(img, inode, zmap, off, a, level);
    BlocksStep(img, inode, zmap, off + a, b, level);
    NoBlocks(img, inode, zmap, off + a, level);
    var block := ReadDataBlock(img, inode, zmap, whole.block, whole.valid, level);
    BlockFills(img, inode, zmap, whole, level);
    CutPiece(block, whole, left, right);
    BothWithNothing(PieceBytes(block, left));
    BothAssociates(PieceBytes(block, left), PieceBytes(block, right),
                   ReadBlocks(img, inode, zmap, off + whole.take, a + b - whole.take, level));
  }

  /** A block has the bytes asked for, and a piece lies in it. */
  lemma BlockFills(img: Image, inode: Inode, zmap: Option<ZMap>, p: Piece, level: nat)
    requires p.from + p.take <= p.valid
    ensures var block := ReadDataBlock(img, inode, zmap, p.block, p.valid, level);
            block.Ok? ==> p.from + p.take <= |block.value|
  {
    hide ReadDataBlock;
  }

  lemma PieceOfLess(size: nat, bs: nat, off: nat, n: nat, m: nat)
    requires bs > 0 && off + n <= size && 0 < m <= n
    ensures var p := PieceAt(size, bs, off, n);
            PieceAt(size, bs, off, m) == p.(take := Min(p.take, m)) && Min(p.take, m) <= m
            && (p.take <= m ==> Min(p.take, m) == p.take) && (m <= p.take ==> Min(p.take, m) == m)
  {
  }

  lemma PieceInside(size: nat, bs: nat, off: nat, a: nat, b: nat)
    requires bs > 0 && off + a + b <= size && a > 0 && b > 0 && a < PieceAt(size, bs, off, a + b).take
    ensures var p := PieceAt(size, bs, off, a + b);
            PieceAt(size, bs, off + a, b) == Piece(p.block, p.valid, p.from + a, p.take - a)
  {
    var p := PieceAt(size, bs, off, a + b);
    DivModUnique(off + a, bs, p.block, p.from + a);
  }

  lemma CutPiece(block: Result<seq<byte>>, whole: Piece, left: Piece, right: Piece)
    requires left.take <= whole.take && left == whole.(take := left.take)
    requires right == Piece(whole.block, whole.valid, whole.from + left.take, whole.take - left.take)
    requires block.Ok? ==> whole.from + whole.take <= |block.value|
    ensures PieceBytes(block, whole) == Both(PieceBytes(block, left), PieceBytes(block, right))
  {
    if block.Ok? {
      assert block.value[whole.from..whole.from + whole.take]
          == block.value[left.from..left.from + left.take] + block.value[right.from..right.from + right.take];
    }
  }

  /** `read_file` of at least one byte is its block loop. */
  lemma ReadFileIs(img: Image, inode: Inode, off: nat, n: nat, level: nat)
    requires off + n <= inode.size && n > 0
    ensures var zmap := img.ZMapFor(inode);
            ReadFile(img, inode, off, n, level)
            == if zmap.Ok? then ReadBlocks(img, inode, zmap.value, off, n, level) else Err
  {
    hide ReadBlocks;
  }

  /**
   Two neighbouring reads are one read: they succeed exactly when it does, with the same
   bytes. An empty read always succeeds, so neither part is empty.
   */
  lemma AdjacentReads(img: Image, inode: Inode, off: nat, a: nat, b: nat, level: nat)
    requires off + a + b <= inode.size && a > 0 && b > 0
    ensures ReadFile(img, inode, off, a + b, level)
            == Both(ReadFile(img, inode, off, a, level), ReadFile(img, inode, off + a, b, level))
  {
    hide ReadFile, ReadBlocks;
    var zmap := img.ZMapFor(inode);
    ReadFileIs(img, inode, off, a + b, level);
    ReadFileIs(img, inode, off, a, level);
    ReadFileIs(img, inode, off + a, b, level);
    if zmap.Ok? {
      ReadBlocksSplit(img, inode, zmap.value, off, a, b, level);
    }
  }

  lemma ReadLength(img: Image, inode: Inode, off: nat, n: nat, level: nat)
    ensures ReadFile(img, inode, off, n, level).Ok? ==> |ReadFile(img, inode, off, n, level).value| == n
    ensures off <= inode.size && n == 0 ==> ReadFile(img, inode, off, n, level) == Ok([])
  {
  }

  /** Any read inside one that succeeds gives its slice. */
  lemma ReadsAreSlices(img: Image, inode: Inode, from: nat, len: nat, off: nat, n: nat, level: nat)
    requires from + len <= inode.size && ReadFile(img, inode, from, len, level).Ok?
    requires off + n <= len
    ensures ReadFile(img, inode, from + off, n, level) == Ok(ReadFile(img, inode, from, len, level).value[off..off + n])
  {
    hide *;
    var whole := ReadFile(img, inode, from, len, level);
    ReadLength(img, inode, from + off, n, level);
    ReadLength(img, inode, from, len, level);
    if n > 0 {
      var front := DropFront(img, inode, from, len, off, level);
      if off + n < len {
        AdjacentReads(img, inode, from + off, n, len - off - n, level);
        ReadLength(img, inode, from + off, n, level);
        SplitOk(ReadFile(img, inode, from + off, n, level), ReadFile(img, inode, from + off + n, len - off - n, level));
        assert front[..n] == whole.value[off..off + n];
      } else {
        assert front == whole.value[off..off + n];
      }
    }
  }

  lemma SplitOk(a: Result<seq<byte>>, b: Result<seq<byte>>)
    requires Both(a, b).Ok?
    ensures a.Ok? && b.Ok? && Both(a, b).value[..|a.value|] == a.value && Both(a, b).value[|a.value|..] == b.value
  {
  }

  lemma DropFront(img: Image, inode: Inode, from: nat, len: nat, off: nat, level: nat) returns (rest: seq<byte>)
    requires from + len <= inode.size && ReadFile(img, inode, from, len, level).Ok? && off < len
    ensures ReadFile(img, inode, from + off, len - off, level) == Ok(rest)
    ensures |rest| == len - off && rest == ReadFile(img, inode, from, len, level).value[off..]
  {
    hide *;
    ReadLength(img, inode, from, len, level);
    ReadLength(img, inode, from, off, level);
    if off > 0 {
      AdjacentReads(img, inode, from, off, len - off, level);
      SplitOk(ReadFile(img, inode, from, off, level), ReadFile(img, inode, from + off, len - off, level));
    }
    rest := ReadFile(img, inode, from + off, len - off, level).value;
  }

  // ----- Blocks side by side on a device

  /** Where a run of blocks lies: at `base` of device `id`, or nowhere. */
  datatype Run = Hole | At(id: nat, base: nat)

  function RunBytes(img: Image, run: Run, off: nat, n: nat): (r: Result<seq<byte>>)
    ensures r.Ok? ==> |r.value| == n
  {
    match run
    case Hole => Ok(Zeros(n))
    case At(id, base) => img.Read(id, base + off, n)
  }

  lemma ReadsJoin(img: Image, run: Run, off: nat, a: nat, b: nat)
    ensures RunBytes(img, run, off, a + b) == Both(RunBytes(img, run, off, a), RunBytes(img, run, off + a, b))
  {
    if run.At? {
      var d, from := img.Device(run.id), run.base + off;
      if d.Ok? && from + a + b <= |d.value| {
        SliceJoin(d.value, from, a, b);
      }
    } else {
      assert Zeros(a + b) == Zeros(a) + Zeros(b);
    }
  }

  /** Blocks `[k0, k1)` of the file are the run, one behind the other. */
  ghost predicate BlocksAt(img: Image, inode: Inode, zmap: Option<ZMap>, level: nat, k0: nat, k1: nat, run: Run) {
    forall k, v: nat :: k0 <= k < k1 && v <= img.BlockSize() ==>
      ReadDataBlock(img, inode, zmap, k, v, level) == RunBytes(img, run, (k - k0) * img.BlockSize(), v)
  }

  /** Reading such blocks to the end of the run, or of the file, is reading the run. */
  lemma {:induction false} SideBySide(img: Image, inode: Inode, zmap: Option<ZMap>, level: nat,
                                      k0: nat, k1: nat, run: Run, k: nat, n: nat)
    requires BlocksAt(img, inode, zmap, level, k0, k1, run)
    requires k0 <= k <= k1 && n > 0 && k * img.BlockSize() + n == Min(k1 * img.BlockSize(), inode.size)
    ensures ReadBlocks(img, inode, zmap, k * img.BlockSize(), n, level)
            == RunBytes(img, run, (k - k0) * img.BlockSize(), n)
    decreases n
  {
    hide *;
    var bs := img.BlockSize();
    var at := (k - k0) * bs;
    BeforeEnd(k, k1, bs, inode.size, n);
    var p := PieceAt(inode.size, bs, k * bs, n);
    MulStep(k, bs);
    MulStep(k - k0, bs);
    WholeBlock(k * bs, k1 * bs, inode.size, bs, n);
    PieceAtStart(inode.size, bs, k, n);
    BlocksStep(img, inode, zmap, k * bs, n, level);
    BlockAt(img, inode, zmap, level, k0, k1, run, k, p.valid);
    WholePiece(img, run, at, p);
    if p.take < n {
      SideBySide(img, inode, zmap, level, k0, k1, run, k + 1, n - p.take);
      ReadsJoin(img, run, at, p.take, n - p.take);
    } else {
      NoBlocks(img, inode, zmap, k * bs + n, level);
      BothWithNothing(RunBytes(img, run, at, n));
    }
  }

  lemma BeforeEnd(k: nat, k1: nat, bs: nat, size: nat, n: nat)
    requires k <= k1 && n > 0 && k * bs + n == Min(k1 * bs, size)
    ensures k < k1 && k * bs + bs <= k1 * bs && k * bs + n <= size
  {
    if k < k1 { MulMono(k + 1, k1, bs); }
    MulStep(k, bs);
  }

  lemma WholePiece(img: Image, run: Run, at: nat, p: Piece)
    requires p.from == 0 && p.take == p.valid
    ensures PieceBytes(RunBytes(img, run, at, p.valid), p) == RunBytes(img, run, at, p.take)
  {
    var r := RunBytes(img, run, at, p.valid);
    assert r.Ok? ==> r.value[0..|r.value|] == r.value;
  }

  /** A block before the end of the run is read whole. */
  lemma WholeBlock(at: nat, end: nat, size: nat, bs: nat, n: nat)
    requires n > 0 && at + n == Min(end, size) && at + bs <= end
    ensures var valid := Min(size - at, bs); Min(valid, n) == valid && (valid < n ==> valid == bs)
  {
  }

  lemma BlockAt(img: Image, inode: Inode, zmap: Option<ZMap>, level: nat, k0: nat, k1: nat, run: Run, k: nat, v: nat)
    requires BlocksAt(img, inode, zmap, level, k0, k1, run) && k0 <= k < k1 && v <= img.BlockSize()
    ensures ReadDataBlock(img, inode, zmap, k, v, level) == RunBytes(img, run, (k - k0) * img.BlockSize(), v)
  {
    hide ReadDataBlock;
  }

  lemma PieceAtStart(size: nat, bs: nat, k: nat, n: nat)
    requires bs > 0 && n > 0 && k * bs + n <= size
    ensures PieceAt(size, bs, k * bs, n) == Piece(k, Min(size - k * bs, bs), 0, Min(Min(size - k * bs, bs), n))
  {
    DivModUnique(k * bs, bs, k, 0);
  }

  // ----- Flat files

  /** A flat file: blocks in a row, the last one behind the inode if the layout says so. */
  function FlatContent(img: Image, inode: Inode): Result<seq<byte>> {
    var bs := img.BlockSize();
    var start, last := inode.rawU * bs, (DivCeil(inode.size, bs) - 1) * bs;
    if inode.size == 0 then Ok([])
    else if inode.layout == FlatPlain || last < 0 then img.Read(0, start, inode.size)
    else
      DivCeilBounds(inode.size, bs);
      Both(if last == 0 then Ok([]) else img.Read(0, start, last), img.Read(0, img.BodyEnd(inode), inode.size - last))
  }

  lemma FlatBlocksAt(img: Image, inode: Inode, level: nat, k1: nat)
    requires inode.layout == FlatPlain || inode.layout == FlatInline
    requires inode.layout == FlatInline ==> k1 < DivCeil(inode.size, img.BlockSize())
    ensures BlocksAt(img, inode, None, level, 0, k1, At(0, inode.rawU * img.BlockSize()))
  {
    hide DivCeil, Image.BlockSize, Image.Read;
  }

  lemma FlatTailAt(img: Image, inode: Inode, level: nat, last: nat)
    requires inode.layout == FlatInline && last + 1 == DivCeil(inode.size, img.BlockSize())
    ensures BlocksAt(img, inode, None, level, last, last + 1, At(0, img.BodyEnd(inode)))
  {
    hide DivCeil, Image.BlockSize, Image.Read, Image.BodyEnd;
  }

  /** A flat file reads as its blocks in a row; a tail behind the inode comes last. */
  lemma FlatFileContent(img: Image, inode: Inode, level: nat)
    requires inode.layout == FlatPlain || inode.layout == FlatInline
    ensures ReadFile(img, inode, 0, inode.size, level) == FlatContent(img, inode)
  {
    hide DivCeil, Image.BlockSize, Image.Read, Image.BodyEnd, BlocksAt, ReadBlocks, ReadFile;
    var bs, start := img.BlockSize(), At(0, inode.rawU * img.BlockSize());
    ReadLength(img, inode, 0, 0, level);
    if inode.size > 0 {
      ReadFileIs(img, inode, 0, inode.size, level);
      DivCeilBounds(inode.size, bs);
      var n := DivCeil(inode.size, bs);
      if inode.layout == FlatPlain {
        FlatBlocksAt(img, inode, level, n);
        SideBySide(img, inode, None, level, 0, n, start, 0, inode.size);
      } else {
        FlatTailAt(img, inode, level, n - 1);
        FlatBlocksAt(img, inode, level, n - 1);
        MulStep(n - 1, bs);
        var last := (n - 1) * bs;
        SideBySide(img, inode, None, level, n - 1, n, At(0, img.BodyEnd(inode)), n - 1, inode.size - last);
        if last > 0 {
          SideBySide(img, inode, None, level, 0, n - 1, start, 0, last);
        }
        NoBlocks(img, inode, None, 0, level);
        ReadBlocksSplit(img, inode, None, 0, last, inode.size - last, level);
      }
    }
  }

  // ----- Chunked files

  function ChunkRun(img: Image, entry: (nat, nat)): Run {
    if entry.0 == EROFS_NULL_ADDR then Hole else At(entry.1, entry.0 * img.BlockSize())
  }

  /** The chunks from `c` on, holes as zeros, the last chunk cut off at the end of the file. */
  function ChunkedContent(img: Image, inode: Inode, c: nat): Result<seq<byte>>
    decreases inode.size - c * ChunkInfoOf(img, inode).chunkSize
  {
    var size := ChunkInfoOf(img, inode).chunkSize;
    if c * size >= inode.size then Ok([])
    else
      MulStep(c, size);
      var entry := LookupChunk(img, inode, c);
      Both(if entry.Ok? then RunBytes(img, ChunkRun(img, entry.value), 0, Min(size, inode.size - c * size)) else Err,
           ChunkedContent(img, inode, c + 1))
  }

  lemma BlocksAtIf(img: Image, inode: Inode, level: nat, k0: nat, k1: nat, run: Run)
    requires forall k, v: nat :: k0 <= k < k1 && v <= img.BlockSize() ==>
               ReadDataBlock(img, inode, None, k, v, level) == RunBytes(img, run, (k - k0) * img.BlockSize(), v)
    ensures BlocksAt(img, inode, None, level, k0, k1, run)
  {
    hide Image.BlockSize, RunBytes, ReadDataBlock;
  }

  lemma ChunkBlocksAt(img: Image, inode: Inode, level: nat, c: nat, perChunk: nat, k0: nat, k1: nat)
    requires inode.layout == ChunkBased && perChunk == Pow2(ChunkInfoOf(img, inode).chunkBits)
    requires LookupChunk(img, inode, c).Ok? && k0 == c * perChunk && k1 == k0 + perChunk
    ensures BlocksAt(img, inode, None, level, k0, k1, ChunkRun(img, LookupChunk(img, inode, c).value))
  {
    hide *;
    var run := ChunkRun(img, LookupChunk(img, inode, c).value);
    forall k, v: nat | k0 <= k < k1 && v <= img.BlockSize()
      ensures ReadDataBlock(img, inode, None, k, v, level) == RunBytes(img, run, (k - k0) * img.BlockSize(), v)
    {
      ChunkBlockAt(img, inode, level, c, perChunk, k0, k, (k - k0) * img.BlockSize(), v);
    }
    BlocksAtIf(img, inode, level, k0, k1, run);
  }

  lemma ChunkBlockAt(img: Image, inode: Inode, level: nat, c: nat, perChunk: nat, k0: nat, k: nat, at: nat, v: nat)
    requires inode.layout == ChunkBased && perChunk == Pow2(ChunkInfoOf(img, inode).chunkBits)
    requires LookupChunk(img, inode, c).Ok? && k0 == c * perChunk && k0 <= k < k0 + perChunk && v <= img.BlockSize()
    requires at == (k - k0) * img.BlockSize()
    ensures ReadDataBlock(img, inode, None, k, v, level) == RunBytes(img, ChunkRun(img, LookupChunk(img, inode, c).value), at, v)
  {
    hide Image.BlockSize, Image.Read, ChunkInfoOf, LookupChunk, Pow2;
    var bs, blkaddr := img.BlockSize(), LookupChunk(img, inode, c).value.0;
    DivModUnique(k, perChunk, c, k - k0);
    Distribute(blkaddr, k - k0, bs);
    assert OffsetInChunk(blkaddr, k, perChunk, bs) == blkaddr * bs + at;
  }

  lemma Regroup(a: nat, b: nat, d: nat)
    ensures a * (d * b) == (a * b) * d
  {
  }

  /** A chunked file reads as its chunks in order. */
  lemma {:induction false} ChunksInOrder(img: Image, inode: Inode, level: nat, c: nat)
    requires inode.layout == ChunkBased && c * ChunkInfoOf(img, inode).chunkSize < inode.size
    ensures ReadBlocks(img, inode, None, c * ChunkInfoOf(img, inode).chunkSize,
                       inode.size - c * ChunkInfoOf(img, inode).chunkSize, level)
            == ChunkedContent(img, inode, c)
    decreases inode.size - c * ChunkInfoOf(img, inode).chunkSize
  {
    hide *;
    var bs, size := img.BlockSize(), ChunkInfoOf(img, inode).chunkSize;
    var at, perChunk := c * size, Pow2(ChunkInfoOf(img, inode).chunkBits);
    var len := ChunkLength(size, inode.size, at);
    MulStep(c, size);
    Regroup(c, perChunk, bs);
    Regroup(c + 1, perChunk, bs);
    ChunkStep(img, inode, c, len);
    ReadBlocksSplit(img, inode, None, at, len, inode.size - at - len, level);
    if LookupChunk(img, inode, c).Ok? {
      var run := ChunkRun(img, LookupChunk(img, inode, c).value);
      MulStep(c, perChunk);
      ChunkBlocksAt(img, inode, level, c, perChunk, c * perChunk, (c + 1) * perChunk);
      MulMono(c * perChunk, (c + 1) * perChunk, bs);
      FirstOffset(c * perChunk, bs);
      MulStep(c, perChunk);
      SideBySide(img, inode, None, level, c * perChunk, (c + 1) * perChunk, run, c * perChunk, len);
    } else {
      MissingChunk(img, inode, level, c, len);
    }
    if at + len < inode.size {
      ChunksInOrder(img, inode, level, c + 1);
    } else {
      NoBlocks(img, inode, None, inode.size, level);
    }
  }

  lemma FirstOffset(k: nat, bs: nat)
    ensures (k - k) * bs == 0
  {
  }

  function ChunkLength(chunkSize: nat, size: nat, at: nat): (n: nat)
    requires at < size && chunkSize > 0
    ensures n == Min(chunkSize, size - at) > 0 && at + n == Min(at + chunkSize, size)
    ensures at + n <= size && (at + n < size ==> n == chunkSize)
  {
    Min(chunkSize, size - at)
  }

  lemma ChunkStep(img: Image, inode: Inode, c: nat, len: nat)
    requires var size := ChunkInfoOf(img, inode).chunkSize;
             c * size < inode.size && len == ChunkLength(size, inode.size, c * size)
    ensures var entry := LookupChunk(img, inode, c);
            ChunkedContent(img, inode, c)
            == Both(if entry.Ok? then RunBytes(img, ChunkRun(img, entry.value), 0, len) else Err, ChunkedContent(img, inode, c + 1))
    ensures c * ChunkInfoOf(img, inode).chunkSize + len == inode.size ==> ChunkedContent(img, inode, c + 1) == Ok([])
  {
    hide LookupChunk, ChunkInfoOf, RunBytes, ChunkRun;
    MulStep(c, ChunkInfoOf(img, inode).chunkSize);
  }

  lemma MissingChunk(img: Image, inode: Inode, level: nat, c: nat, n: nat)
    requires inode.layout == ChunkBased && LookupChunk(img, inode, c).Err?
    requires var size := ChunkInfoOf(img, inode).chunkSize; c * size + n <= inode.size && n > 0
    ensures ReadBlocks(img, inode, None, c * ChunkInfoOf(img, inode).chunkSize, n, level).Err?
  {
    hide ReadBlocks, LookupChunk, ReadDataBlock, PieceAt, Pow2, ChunkInfoOf, Image.BlockSize;
    var bs, at, perChunk := img.BlockSize(), c * ChunkInfoOf(img, inode).chunkSize, Pow2(ChunkInfoOf(img, inode).chunkBits);
    Regroup(c, perChunk, bs);
    PieceAtStart(inode.size, bs, c * perChunk, n);
    BlocksStep(img, inode, None, at, n, level);
    MissingBlock(img, inode, level, c, perChunk, PieceAt(inode.size, bs, at, n).valid);
  }

  lemma MissingBlock(img: Image, inode: Inode, level: nat, c: nat, perChunk: nat, len: nat)
    requires inode.layout == ChunkBased && LookupChunk(img, inode, c).Err?
    requires perChunk == Pow2(ChunkInfoOf(img, inode).chunkBits)
    ensures ReadDataBlock(img, inode, None, c * perChunk, len, level).Err?
  {
    hide LookupChunk, ChunkInfoOf, Pow2;
    DivModUnique(c * perChunk, perChunk, c, 0);
  }

  /** A chunked file reads as its chunks in order, a missing chunk as zeros. */
  lemma ChunkedFileContent(img: Image, inode: Inode, level: nat)
    requires inode.layout == ChunkBased
    ensures ReadFile(img, inode, 0, inode.size, level) == ChunkedContent(img, inode, 0)
  {
    hide ReadFile, ReadBlocks, ChunkInfoOf, LookupChunk;
    ReadLength(img, inode, 0, 0, level);
    if inode.size > 0 {
      ReadFileIs(img, inode, 0, inode.size, level);
      ChunksInOrder(img, inode, level, 0);
    }
  }
}
