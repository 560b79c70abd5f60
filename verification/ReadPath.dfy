/**
 Reading a file without a cache: the meaning every cached read is held to. Each function
 gives the bytes the code of the same name writes into its buffer.
 */
module ReadPath {
  import opened Basics
  import opened Bits
  import opened CompactPack
  import opened ZMapReader
  import opened ExtentMap
  import opened FragmentWalk
  import opened Images

  // ----- One extent

  /** `header_algo`, with the codecs that exist. */
  function HeaderAlgo(z: ZMap, ctype: nat): Result<nat> {
    var id := if ctype == HEAD1 then z.algorithmType % 16 else z.algorithmType / 16 % 16;
    if (ctype == HEAD1 || ctype == HEAD2) && id <= 3 then Ok(id) else Err
  }

  /** `pcluster_span`. */
  function PclusterSpan(x: Extent): Result<nat> {
    if x.end < x.start || x.end - x.start > MAX_PCLUSTER_SIZE then Err else Ok(x.end - x.start)
  }

  predicate InlineTail(z: ZMap, x: Extent) {
    x.isLast && z.TailInline().Some?
  }

  /** The bytes on disk a compressed extent is decoded from. */
  function FrameBytes(img: Image, z: ZMap, x: Extent): Result<seq<byte>> {
    var bs := img.BlockSize();
    var (off, len) :=
      if InlineTail(z, x) then z.TailInline().value
      else (x.blkaddr * bs, Min(x.blockCount * bs, SatSub(|img.dev|, x.blkaddr * bs)));
    if len == 0 then Ok([]) else img.Read(0, off, len)
  }

  /** A whole compressed extent, decoded. */
  function DecodeExtent(img: Image, z: ZMap, x: Extent): (r: Result<seq<byte>>)
    ensures r.Ok? ==> x.start <= x.end && |r.value| == x.end - x.start
  {
    var algo :- HeaderAlgo(z, x.ctype);
    var frame :- FrameBytes(img, z, x);
    var span :- PclusterSpan(x);
    Decompress(img, algo, x.partialRef, frame, span)
  }

  /** `interlaced_index`. */
  function InterlacedIndex(onDiskLen: nat, bs: nat, headInBlock: nat, off: nat): (i: nat)
    requires headInBlock < bs <= onDiskLen
    ensures i < onDiskLen
  {
    (onDiskLen - (bs - headInBlock) + off) % onDiskLen
  }

  /** Bytes `[from, from + take)` of an extent stored rotated in `onDisk`, which may be cut short. */
  function Rotated(onDisk: seq<byte>, onDiskLen: nat, bs: nat, headInBlock: nat, from: nat, take: nat): (r: Result<seq<byte>>)
    requires headInBlock < bs <= onDiskLen
    ensures r.Ok? ==> |r.value| == take
    decreases take
  {
    if take == 0 then Ok([])
    else
      var front :- Rotated(onDisk, onDiskLen, bs, headInBlock, from, take - 1);
      var at := InterlacedIndex(onDiskLen, bs, headInBlock, from + take - 1);
      if at < |onDisk| then Ok(front + [onDisk[at]]) else Err
  }

  /** An uncompressed tail, read from behind the index. */
  function FillPlainInline(img: Image, z: ZMap, x: Extent, from: nat, take: nat): (r: Result<seq<byte>>)
    requires z.TailInline().Some?
    ensures r.Ok? ==> |r.value| == take
  {
    var bs, (off, len) := img.BlockSize(), z.TailInline().value;
    if z.Interlaced() then
      var span :- PclusterSpan(x);
      if x.start % bs + span > len && x.start % bs + span <= bs then
        if take > 0 then Err else Ok([])
      else
        var inline :- img.Read(0, off, len);
        Rotated(inline, bs, bs, x.start % bs, from, take)
    else if from + take > len then Err
    else img.Read(0, off + from, take)
  }

  /** An uncompressed pcluster in blocks of its own. */
  function FillPlain(img: Image, z: ZMap, x: Extent, from: nat, take: nat): (r: Result<seq<byte>>)
    requires x.blockCount >= 1
    ensures r.Ok? ==> |r.value| == take
  {
    var bs := img.BlockSize();
    if z.Interlaced() then
      MulMono(1, x.blockCount, bs);
      var span :- PclusterSpan(x);
      if span > x.blockCount * bs then Err
      else
        var onDisk :- img.Read(0, x.blkaddr * bs, x.blockCount * bs);
        Rotated(onDisk, x.blockCount * bs, bs, x.start % bs, from, take)
    else img.Read(0, x.blkaddr * bs + from, take)
  }

  /** Bytes `[from, from + take)` of an extent, whatever its kind. */
  function ExtentSlice(img: Image, z: ZMap, x: Extent, from: nat, take: nat): (r: Result<seq<byte>>)
    requires x.blockCount >= 1 && x.start + from + take <= x.end
    ensures r.Ok? ==> |r.value| == take
  {
    if x.ctype == PLAIN then
      if InlineTail(z, x) then FillPlainInline(img, z, x, from, take) else FillPlain(img, z, x, from, take)
    else
      var whole :- DecodeExtent(img, z, x);
      Ok(whole[from..from + take])
  }

  lemma ExtentHasBlocks(idx: Index, lcs: nat, size: nat, off: nat)
    requires lcs > 0 && |idx| == DivCeil(size, lcs)
    ensures ExtentAt(idx, lcs, size, off).Ok? ==> ExtentAt(idx, lcs, size, off).value.blockCount >= 1
  {
    hide DivCeil, FindHead, Scan, Reach, HasBit, StartOf;
  }

  /** The extent that owns byte `off` of the file, as the device says. */
  function ExtentOf(img: Image, z: ZMap, off: nat): Result<Extent> {
    ExtentAt(ReadIndex(img.dev, z), z.LclusterSize(), z.size, off)
  }

  /** What an extent has from byte `off` of the file on, as far as `room` goes. */
  function FillFrom(img: Image, z: ZMap, x: Extent, off: nat, room: nat): (r: Result<seq<byte>>)
    requires x.blockCount >= 1
    ensures r.Ok? ==> |r.value| <= room
  {
    if off < x.start || off > x.end then Err
    else ExtentSlice(img, z, x, off - x.start, Min(room, x.end - off))
  }

  /** The part of `fill_from_one_pcluster_for` behind the fragment redirect. */
  function FillFromExtent(img: Image, z: ZMap, off: nat, room: nat): (r: Result<seq<byte>>)
    ensures r.Ok? ==> |r.value| <= room
  {
    var x :- ExtentOf(img, z, off);
    ExtentHasBlocks(ReadIndex(img.dev, z), z.LclusterSize(), z.size, off);
    FillFrom(img, z, x, off, room)
  }

  // ----- Blocks and files

  /**
   `fill_from_one_pcluster_for`: some bytes of the file from `off` on. `level` is how many
   redirects to the packed inode may still follow; the packed inode itself has none.
   */
  function FillOne(img: Image, z: ZMap, off: nat, room: nat, level: nat): (r: Result<seq<byte>>)
    ensures r.Ok? ==> |r.value| <= room
    decreases level, 0
  {
    if off >= z.size then Ok(Zeros(room))
    else
      var range :- FragmentRange(z, ReadIndex(img.dev, z));
      if range.Some? && range.value.1 <= off < range.value.2 then
        var (fragmentoff, start, end) := range.value;
        var take, from := Min(room, end - off), fragmentoff + (off - start);
        var packed :- img.Packed();
        if from + take > packed.size || level == 0 then Err
        else ReadFile(img, packed, from, take, level - 1)
      else FillFromExtent(img, z, off, room)
  }

  /** The loop of `read_compressed_block`; no progress fills the rest with zeros. */
  function ReadCompressed(img: Image, z: ZMap, off: nat, room: nat, level: nat): (r: Result<seq<byte>>)
    ensures r.Ok? ==> |r.value| == room
    decreases level, 1, room
  {
    if room == 0 then Ok([])
    else
      var got :- FillOne(img, z, off, room, level);
      if got == [] then Ok(Zeros(room))
      else
        var rest :- ReadCompressed(img, z, off + |got|, room - |got|, level);
        Ok(got + rest)
  }

  datatype ChunkInfo = ChunkInfo(chunkBits: nat, usesIndexes: bool, chunkSize: nat, nChunks: nat)

  /** `chunk_info`. */
  function ChunkInfoOf(img: Image, inode: Inode): (info: ChunkInfo)
    ensures info.chunkSize == img.BlockSize() * Pow2(info.chunkBits) > 0
    ensures info.nChunks == DivCeil(inode.size, info.chunkSize)
  {
    var bits := inode.rawU % 32;
    MulMono(1, Pow2(bits), img.BlockSize());
    var size := img.BlockSize() * Pow2(bits);
    ChunkInfo(bits, HasBit(inode.rawU % 0x1_0000, 0x20), size, DivCeil(inode.size, size))
  }

  /** `lookup_chunk_blkaddr`: block address and device. */
  function LookupChunk(img: Image, inode: Inode, chunk: nat): Result<(nat, nat)> {
    var info := ChunkInfoOf(img, inode);
    if chunk >= info.nChunks then Err
    else if info.usesIndexes then
      var e :- ReadAt(img.dev, img.BodyEnd(inode) + chunk * 8, 8);
      Ok((LE(e[4..]), LE(e[2..4])))
    else
      var e :- ReadAt(img.dev, img.BodyEnd(inode) + chunk * 4, 4);
      Ok((LE(e), 0))
  }

  /** Block `block` of a chunked file. */
  function ReadChunkBlock(img: Image, inode: Inode, block: nat, len: nat): (r: Result<seq<byte>>)
    ensures r.Ok? ==> |r.value| == len
  {
    var perChunk := Pow2(ChunkInfoOf(img, inode).chunkBits);
    var entry :- LookupChunk(img, inode, block / perChunk);
    if entry.0 == EROFS_NULL_ADDR then Ok(Zeros(len))
    else img.Read(entry.1, OffsetInChunk(entry.0, block, perChunk, img.BlockSize()), len)
  }

  /** Device offset of block `block` of the file, whose chunk starts at block `blkaddr`. */
  function OffsetInChunk(blkaddr: nat, block: nat, perChunk: nat, bs: nat): nat
    requires perChunk > 0
  {
    (blkaddr + block % perChunk) * bs
  }

  /** Block `block` of a file whose blocks lie side by side, its tail perhaps behind the inode. */
  function ReadFlatBlock(img: Image, inode: Inode, block: nat, len: nat): (r: Result<seq<byte>>)
    ensures r.Ok? ==> |r.value| == len
  {
    var bs := img.BlockSize();
    if inode.layout == FlatInline && block + 1 == DivCeil(inode.size, bs) then img.Read(0, img.BodyEnd(inode), len)
    else img.Read(0, inode.rawU * bs + block * bs, len)
  }

  /** `read_data_block`: the first `len` bytes of block `block`. */
  function ReadDataBlock(img: Image, inode: Inode, zmap: Option<ZMap>, block: nat, len: nat, level: nat): (r: Result<seq<byte>>)
    ensures r.Ok? ==> |r.value| == len
    decreases level, 2
  {
    match inode.layout
    case FlatPlain => ReadFlatBlock(img, inode, block, len)
    case FlatInline => ReadFlatBlock(img, inode, block, len)
    case ChunkBased => ReadChunkBlock(img, inode, block, len)
    case _ =>
      var z :- if zmap.Some? then Ok(zmap.value) else img.OpenFor(inode);
      ReadCompressed(img, z, img.BlockStart(block), len, level)
  }

  /** One turn of the `read_file` loop: `take` bytes from `from` on, in a block of `valid` bytes. */
  datatype Piece = Piece(block: nat, valid: nat, from: nat, take: nat)

  function PieceAt(size: nat, bs: nat, off: nat, n: nat): (p: Piece)
    requires bs > 0 && off + n <= size && n > 0
    ensures p.from + p.take <= p.valid <= bs && 0 < p.take <= n
    ensures off == p.block * bs + p.from && p.block * bs + p.valid <= size
  {
    var block := off / bs;
    var valid := Min(size - block * bs, bs);
    Piece(block, valid, off % bs, Min(valid - off % bs, n))
  }

  /** The loop of `read_file`. */
  function ReadBlocks(img: Image, inode: Inode, zmap: Option<ZMap>, off: nat, n: nat, level: nat): (r: Result<seq<byte>>)
    requires off + n <= inode.size
    ensures r.Ok? ==> |r.value| == n
    decreases level, 3, n
  {
    if n == 0 then Ok([])
    else
      var p := PieceAt(inode.size, img.BlockSize(), off, n);
      var block :- ReadDataBlock(img, inode, zmap, p.block, p.valid, level);
      var rest :- ReadBlocks(img, inode, zmap, off + p.take, n - p.take, level);
      Ok(block[p.from..p.from + p.take] + rest)
  }

  /** `read_file`. */
  function ReadFile(img: Image, inode: Inode, off: nat, n: nat, level: nat): (r: Result<seq<byte>>)
    ensures r.Ok? ==> |r.value| == n
    decreases level, 4
  {
    if off + n > inode.size then Err
    else if n == 0 then Ok([])
    else
      var zmap :- img.ZMapFor(inode);
      ReadBlocks(img, inode, zmap, off, n, level)
  }
}
