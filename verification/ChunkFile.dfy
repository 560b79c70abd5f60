/** Chunked files: the map of chunk addresses the writer leaves, and the file the reader sees. */
module ChunkFile {
  import opened Basics
  import opened Bits
  import opened CompactRoundTrip
  import opened FileContent
  import opened Images
  import opened ReadPath

  function MapEntry(addr: nat, indexed: bool): (s: seq<byte>)
    ensures |s| == if indexed then 8 else 4
  {
    if indexed then ToLE(0, 2) + ToLE(0, 2) + ToLE(addr, 4) else ToLE(addr, 4)
  }

  function EntryLen(indexed: bool): nat {
    if indexed then 8 else 4
  }

  function MapBytes(addrs: seq<nat>, indexed: bool): (s: seq<byte>)
    ensures |s| == if indexed then 8 * |addrs| else 4 * |addrs|
  {
    if addrs == [] then [] else MapBytes(addrs[..|addrs| - 1], indexed) + MapEntry(addrs[|addrs| - 1], indexed)
  }

  /** `encode_chunkmap`. */
  method EncodeChunkmap(addrs: seq<nat>, indexed: bool) returns (buf: seq<byte>)
    ensures buf == MapBytes(addrs, indexed)
  {
    hide ToLE;
    buf := [];
    for i := 0 to |addrs|
      invariant buf == MapBytes(addrs[..i], indexed)
    {
      assert addrs[..i + 1][..i] == addrs[..i];
      if indexed {
        buf := buf + (ToLE(0, 2) + ToLE(0, 2) + ToLE(addrs[i], 4));
      } else {
        buf := buf + ToLE(addrs[i], 4);
      }
    }
    assert addrs[..|addrs|] == addrs;
  }

  lemma {:induction false} MapEntryAt(addrs: seq<nat>, indexed: bool, i: nat)
    requires i < |addrs|
    ensures i * EntryLen(indexed) + EntryLen(indexed) <= |MapBytes(addrs, indexed)|
    ensures MapBytes(addrs, indexed)[i * EntryLen(indexed)..i * EntryLen(indexed) + EntryLen(indexed)] == MapEntry(addrs[i], indexed)
    decreases |addrs|
  {
    hide MapEntry;
    var n, w := |addrs| - 1, EntryLen(indexed);
    var front, last := MapBytes(addrs[..n], indexed), MapEntry(addrs[n], indexed);
    assert MapBytes(addrs, indexed) == front + last;
    if i < n {
      MapEntryAt(addrs[..n], indexed, i);
      assert (front + last)[i * w..i * w + w] == front[i * w..i * w + w];
    } else {
      assert (front + last)[|front|..|front| + w] == last;
    }
  }

  lemma ChunkEntryFields(addr: nat)
    requires addr <= U32_MAX
    ensures LE(MapEntry(addr, true)[4..]) == addr && LE(MapEntry(addr, true)[2..4]) == 0 && LE(MapEntry(addr, false)) == addr
  {
    hide LE, ToLE;
    Pow2Of32();
    LEOfFitting(addr, 4);
    LEOfFitting(0, 2);
    assert MapEntry(addr, true)[4..] == ToLE(addr, 4) && MapEntry(addr, true)[2..4] == ToLE(0, 2);
  }

  /** Each chunk's address reads back, and names the primary device. */
  lemma ChunkAddressReadsBack(img: Image, inode: Inode, addrs: seq<nat>, c: nat)
    requires var info := ChunkInfoOf(img, inode);
             && ReadAt(img.dev, img.BodyEnd(inode), |MapBytes(addrs, info.usesIndexes)|) == Ok(MapBytes(addrs, info.usesIndexes))
             && c < info.nChunks
    requires c < |addrs| && addrs[c] <= U32_MAX
    ensures LookupChunk(img, inode, c) == Ok((addrs[c], 0))
  {
    hide MapBytes, MapEntry, ChunkInfoOf, LE, Image.BodyEnd;
    var indexed := ChunkInfoOf(img, inode).usesIndexes;
    var at, w := img.BodyEnd(inode), EntryLen(indexed);
    MapEntryAt(addrs, indexed, c);
    SliceSlice(img.dev, at, at + |MapBytes(addrs, indexed)|, c * w, c * w + w);
    ChunkEntryFields(addrs[c]);
  }

  // ----- The whole file

  function ChunkData(chunk: Option<seq<byte>>, chunkSize: nat): seq<byte> {
    match chunk case Some(buf) => buf case None => Zeros(chunkSize)
  }

  /** The content the writer was given, a missing chunk standing for zeros. */
  function ChunksContent(chunks: seq<Option<seq<byte>>>, chunkSize: nat): seq<byte>
    decreases |chunks|
  {
    if chunks == [] then [] else ChunkData(chunks[0], chunkSize) + ChunksContent(chunks[1..], chunkSize)
  }

  /** What `total_chunked_size` accepts: whole chunks, but for the last. */
  ghost predicate WellCut(chunks: seq<Option<seq<byte>>>, chunkSize: nat) {
    forall i :: 0 <= i < |chunks| && chunks[i].Some? ==>
      |chunks[i].value| <= chunkSize && (i + 1 < |chunks| ==> |chunks[i].value| == chunkSize)
  }

  ghost predicate ChunksOnDevice(img: Image, inode: Inode, chunks: seq<Option<seq<byte>>>, addrs: seq<nat>) {
    var info := ChunkInfoOf(img, inode);
    && |addrs| == |chunks|
    && ReadAt(img.dev, img.BodyEnd(inode), |MapBytes(addrs, info.usesIndexes)|) == Ok(MapBytes(addrs, info.usesIndexes))
    && forall i :: 0 <= i < |chunks| ==>
         if chunks[i].None? then addrs[i] == EROFS_NULL_ADDR
         else addrs[i] < EROFS_NULL_ADDR && img.Read(0, addrs[i] * img.BlockSize(), |chunks[i].value|) == Ok(chunks[i].value)
  }

  /** Chunks behind a cut make up the rest of the content, chunk by chunk. */
  lemma ContentStep(chunks: seq<Option<seq<byte>>>, chunkSize: nat, c: nat)
    requires c < |chunks|
    ensures ChunksContent(chunks[c..], chunkSize) == ChunkData(chunks[c], chunkSize) + ChunksContent(chunks[c + 1..], chunkSize)
  {
    assert chunks[c..][1..] == chunks[c + 1..];
  }

  lemma {:induction false} RestOfSize(chunks: seq<Option<seq<byte>>>, chunkSize: nat, c: nat)
    requires WellCut(chunks, chunkSize) && c <= |chunks|
    ensures c < |chunks| ==> |ChunksContent(chunks, chunkSize)| == c * chunkSize + |ChunksContent(chunks[c..], chunkSize)|
    decreases c
  {
    if c == 0 {
      assert chunks[0..] == chunks;
    } else if c < |chunks| {
      RestOfSize(chunks, chunkSize, c - 1);
      ContentStep(chunks, chunkSize, c - 1);
      MulStep(c - 1, chunkSize);
    }
  }

  lemma {:induction false} ChunksFrom(img: Image, inode: Inode, chunks: seq<Option<seq<byte>>>, addrs: seq<nat>, c: nat)
    requires ChunksOnDevice(img, inode, chunks, addrs) && WellCut(chunks, ChunkInfoOf(img, inode).chunkSize)
    requires inode.size == |ChunksContent(chunks, ChunkInfoOf(img, inode).chunkSize)| && c <= |chunks|
    ensures ChunkedContent(img, inode, c) == Ok(ChunksContent(chunks[c..], ChunkInfoOf(img, inode).chunkSize))
    decreases |chunks| - c
  {
    hide ChunkInfoOf, ChunksContent, LookupChunk, MapBytes, Image.BodyEnd, Image.BlockSize, Image.Read, ChunkedContent;
    var size := ChunkInfoOf(img, inode).chunkSize;
    if c == |chunks| {
      SizeBounds(chunks, size, inode.size);
      PastEnd(img, inode, c);
      NoChunks(chunks[c..], size);
    } else {
      RestOfSize(chunks, size, c);
      ContentStep(chunks, size, c);
      ChunksFrom(img, inode, chunks, addrs, c + 1);
      ChunkHere(img, inode, chunks, addrs, c);
    }
  }

  lemma NoChunks(none: seq<Option<seq<byte>>>, size: nat)
    requires none == []
    ensures ChunksContent(none, size) == []
  {
  }

  lemma PastEnd(img: Image, inode: Inode, c: nat)
    requires c * ChunkInfoOf(img, inode).chunkSize >= inode.size
    ensures ChunkedContent(img, inode, c) == Ok([])
  {
    hide ChunkInfoOf;
  }

  lemma {:induction false} SizeBounds(chunks: seq<Option<seq<byte>>>, chunkSize: nat, size: nat)
    requires WellCut(chunks, chunkSize) && size == |ChunksContent(chunks, chunkSize)|
    ensures size <= |chunks| * chunkSize
    decreases |chunks|
  {
    if chunks != [] {
      var n := |chunks| - 1;
      RestOfSize(chunks, chunkSize, n);
      ContentStep(chunks, chunkSize, n);
      assert chunks[n + 1..] == [];
      MulStep(n, chunkSize);
    }
  }

  lemma ChunkHere(img: Image, inode: Inode, chunks: seq<Option<seq<byte>>>, addrs: seq<nat>, c: nat)
    requires ChunksOnDevice(img, inode, chunks, addrs) && WellCut(chunks, ChunkInfoOf(img, inode).chunkSize)
    requires c < |chunks|
    requires var size := ChunkInfoOf(img, inode).chunkSize;
             && inode.size == c * size + |ChunkData(chunks[c], size) + ChunksContent(chunks[c + 1..], size)|
             && ChunkedContent(img, inode, c + 1) == Ok(ChunksContent(chunks[c + 1..], size))
    ensures var size := ChunkInfoOf(img, inode).chunkSize;
            ChunkedContent(img, inode, c) == Ok(ChunkData(chunks[c], size) + ChunksContent(chunks[c + 1..], size))
  {
    hide ChunkInfoOf, ChunksContent, LookupChunk, MapBytes, Image.BodyEnd, Image.BlockSize, Image.Read, ChunkedContent;
    var size := ChunkInfoOf(img, inode).chunkSize;
    var data, rest := ChunkData(chunks[c], size), ChunksContent(chunks[c + 1..], size);
    if c + 1 == |chunks| {
      NoChunks(chunks[c + 1..], size);
    }
    if inode.size == c * size {
      PastEnd(img, inode, c);
      assert data + rest == [];
    } else {
      var len := ChunkLength(size, inode.size, c * size);
      ChunkStep(img, inode, c, len);
      InsideFile(img, inode, c);
      ChunkAddressReadsBack(img, inode, addrs, c);
      assert len == |data|;
    }
  }

  lemma InsideFile(img: Image, inode: Inode, c: nat)
    requires c * ChunkInfoOf(img, inode).chunkSize < inode.size
    ensures c < ChunkInfoOf(img, inode).nChunks
  {
    hide Pow2;
    var size := ChunkInfoOf(img, inode).chunkSize;
    DivCeilBounds(inode.size, size);
    if c >= DivCeil(inode.size, size) {
      MulMono(DivCeil(inode.size, size), c, size);
    }
  }

  /** A written chunked file reads back as its chunks, with zeros for the missing ones. */
  lemma ChunkedFileReadsBack(img: Image, inode: Inode, chunks: seq<Option<seq<byte>>>, addrs: seq<nat>, off: nat, n: nat, level: nat)
    requires inode.layout == ChunkBased
    requires ChunksOnDevice(img, inode, chunks, addrs) && WellCut(chunks, ChunkInfoOf(img, inode).chunkSize)
    requires inode.size == |ChunksContent(chunks, ChunkInfoOf(img, inode).chunkSize)|
    requires off + n <= inode.size
    ensures ReadFile(img, inode, off, n, level) == Ok(ChunksContent(chunks, ChunkInfoOf(img, inode).chunkSize)[off..off + n])
  {
    hide ChunkInfoOf, ChunksContent, ReadFile, ChunksOnDevice, WellCut, ChunkedContent;
    ChunkedFileContent(img, inode, level);
    ChunksFrom(img, inode, chunks, addrs, 0);
    assert chunks[0..] == chunks;
    ReadsAreSlices(img, inode, 0, inode.size, off, n, level);
  }
}
