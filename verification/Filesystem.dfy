/**
 The cached read path. Every method writes its bytes into the caller's buffer in place
 and may hit or fill the cache on the way. Each ends, stays inside its part of the buffer
 and keeps the cache in order on any index; on inodes whose cache keys name one recipe
 each it gives what the uncached function does, whatever was read before.
 */
module Filesystems {
  import opened Basics
  import opened CacheKeys
  import opened CompactPack
  import opened ExtentMap
  import opened FileContent
  import opened FragmentWalk
  import opened Images
  import opened PclusterCache
  import opened ReadPath
  import opened ZMapReader

  // ----- Which results the cache may hold

  /** The inode is the image's own, and its index gives cached extents of one key one recipe. */
  ghost predicate Clean(img: Image, limit: nat, nid: nat) {
    && img.inodes(nid).Ok? && img.inodes(nid).value.nid == nid
    && forall z: ZMap :: IsZMapOf(img, nid, z) ==> KeysAgree(z, ReadIndex(img.dev, z), limit)
  }

  ghost predicate IsZMapOf(img: Image, nid: nat, z: ZMap) {
    img.inodes(nid).Ok? && img.ZMapFor(img.inodes(nid).value) == Ok(Some(z))
  }

  /** Inodes whose heads start inside their lclusters are clean, whatever the cache's limit. */
  lemma BoundedIsClean(img: Image, limit: nat, nid: nat)
    requires img.inodes(nid).Ok? && img.inodes(nid).value.nid == nid
    requires forall z: ZMap :: IsZMapOf(img, nid, z) ==> BoundedIndex(ReadIndex(img.dev, z), z.LclusterSize())
    ensures Clean(img, limit, nid)
  {
    hide ReadIndex, BoundedIndex, KeysAgree, IsZMapOf, ZMap.LclusterSize;
    forall z: ZMap | IsZMapOf(img, nid, z)
      ensures KeysAgree(z, ReadIndex(img.dev, z), limit)
    {
      BoundedKeysAgree(z, ReadIndex(img.dev, z), limit);
    }
  }

  ghost predicate IsRequest(img: Image, limit: nat, q: Request, z: ZMap) {
    && Clean(img, limit, q.key.nid) && IsZMapOf(img, q.key.nid, z)
    && q in RequestsOf(img, q.key.nid, z)
  }

  /** Every cached extent of every clean inode, and what it decodes to. */
  ghost function Universe(img: Image, limit: nat): iset<Request> {
    iset q: Request, z: ZMap | IsRequest(img, limit, q, z) :: q
  }

  /** Among clean inodes the key `(nid, blkaddr, start, end)` determines the decoded bytes. */
  lemma KeysAreFaithful(img: Image, limit: nat)
    ensures Faithful(Universe(img, limit), limit)
  {
    hide IsRequest;
    forall p, q | p in Universe(img, limit) && q in Universe(img, limit) && p.key == q.key && p.Remembered(limit)
      ensures q.uncached == p.uncached
    {
      var z :| IsRequest(img, limit, p, z);
      var y :| IsRequest(img, limit, q, y);
      SameRequest(img, limit, p, z, q, y);
    }
  }

  lemma SameRequest(img: Image, limit: nat, p: Request, z: ZMap, q: Request, y: ZMap)
    requires IsRequest(img, limit, p, z) && IsRequest(img, limit, q, y) && p.key == q.key && p.Remembered(limit)
    ensures q.uncached == p.uncached
  {
    hide RequestsOf, ReadIndex, KeysAgree, Image.ZMapFor;
    AgreeingIsFaithful(img, p.key.nid, z, limit);
  }

  /** A remembered value is as long as its key says, and under a clean inode's key it is the truth. */
  ghost predicate TrueEntry(img: Image, limit: nat, e: Entry) {
    && |e.value| <= limit && e.key.start <= e.key.end && |e.value| == e.key.end - e.key.start
    && (Clean(img, limit, e.key.nid) ==> Request(e.key, Ok(e.value)) in Universe(img, limit))
  }

  ghost predicate Truthful(img: Image, l: Lru, limit: nat) {
    forall e :: e in l ==> TrueEntry(img, limit, e)
  }

  /** A request like those the read path makes, of any inode. */
  ghost predicate FairRequest(img: Image, limit: nat, q: Request) {
    && (q.uncached.Ok? ==> q.key.start <= q.key.end && |q.uncached.value| == q.key.end - q.key.start)
    && (Clean(img, limit, q.key.nid) ==> q in Universe(img, limit))
  }

  /** Serving a request keeps the cache truthful, and serves clean inodes the truth. */
  lemma ServeKeepsTruth(img: Image, l: Lru, capacity: nat, limit: nat, q: Request)
    requires Truthful(img, l, limit) && FairRequest(img, limit, q)
    ensures Truthful(img, Serve(l, capacity, limit, q).0, limit)
    ensures var r := Serve(l, capacity, limit, q).1;
            && (r.Ok? ==> q.key.start <= q.key.end && |r.value| == q.key.end - q.key.start)
            && (Clean(img, limit, q.key.nid) ==> r == q.uncached)
  {
    hide Push, Trim, Without, Clean, Universe, Faithful;
    var i := Find(l, q.key);
    if capacity > 0 && i < |l| {
      assert l[i] in l;
      WithoutBringsNothing(l, i);
      if Clean(img, limit, q.key.nid) {
        KeysAreFaithful(img, limit);
        OneResult(Universe(img, limit), limit, Request(l[i].key, Ok(l[i].value)), q);
      }
    } else if capacity > 0 && q.Remembered(limit) {
      var e := Entry(q.key, q.uncached.value);
      PushBringsOnly(l, capacity, e);
      assert Request(e.key, Ok(e.value)) == q;
      assert TrueEntry(img, limit, e);
      forall x | x in Trim(Push(l, capacity, e).0, limit)
        ensures x in Push(l, capacity, e).0
      {
      }
    }
  }

  lemma OneResult(universe: iset<Request>, limit: nat, p: Request, q: Request)
    requires Faithful(universe, limit) && p in universe && q in universe && p.key == q.key && p.Remembered(limit)
    ensures q.uncached == p.uncached
  {
  }

  // ----- Writing into the caller's buffer

  /** `now` is `was` with `bytes` written at `at`. */
  ghost predicate Wrote(was: seq<byte>, now: seq<byte>, at: nat, bytes: seq<byte>) {
    at + |bytes| <= |was| && now == was[..at] + bytes + was[at + |bytes|..]
  }

  lemma WroteMore(was: seq<byte>, mid: seq<byte>, now: seq<byte>, at: nat, a: seq<byte>, b: seq<byte>)
    requires Wrote(was, mid, at, a) && Wrote(mid, now, at + |a|, b)
    ensures Wrote(was, now, at, a + b)
  {
  }

  /** A read that should give `spec` wrote it at `at`, and says how much that was; or it failed. */
  ghost predicate Filled(was: seq<byte>, now: seq<byte>, at: nat, spec: Result<seq<byte>>, r: Result<nat>) {
    match spec
    case Ok(bytes) => r == Ok(|bytes|) && Wrote(was, now, at, bytes)
    case Err => r == Err
  }

  /** Nothing outside `[at, at + room)` was written, and `r` counts no more than was room for. */
  ghost predicate Framed(was: seq<byte>, now: seq<byte>, at: nat, room: nat, r: Result<nat>) {
    && |now| == |was| && at + room <= |was|
    && now[..at] == was[..at] && now[at + room..] == was[at + room..]
    && (r.Ok? ==> r.value <= room)
  }

  /** The packed inode is the image's own and carries no fragment of its own. */
  ghost predicate PackedEnds(img: Image) {
    img.Packed().Ok? ==>
      && img.Packed().value.nid == img.packedNid && img.inodes(img.packedNid) == img.Packed()
      && NoFragment(img, img.Packed().value)
  }

  ghost predicate NoFragment(img: Image, inode: Inode) {
    img.ZMapFor(inode).Ok? && img.ZMapFor(inode).value.Some? ==> !img.ZMapFor(inode).value.value.HasFragment()
  }

  /** What a read needs to end: the inode is the image's, and redirects at most `level` times. */
  ghost predicate Readable(img: Image, inode: Inode, level: nat) {
    && img.inodes(inode.nid) == Ok(inode)
    && (if level == 0 then NoFragment(img, inode) else PackedEnds(img))
  }

  /** What it needs to be independent of the cache: every inode it decodes from is clean. */
  ghost predicate AllClean(img: Image, limit: nat, inode: Inode, level: nat) {
    Clean(img, limit, inode.nid) && (level > 0 && img.Packed().Ok? ==> Clean(img, limit, img.packedNid))
  }

  /** The rotated copy of an interlaced extent, byte by byte. */
  method CopyRotated(out: array<byte>, at: nat, onDisk: seq<byte>, onDiskLen: nat, bs: nat, headInBlock: nat, from: nat, take: nat)
    returns (ok: bool)
    requires headInBlock < bs <= onDiskLen && at + take <= out.Length
    modifies out
    ensures var r := Rotated(onDisk, onDiskLen, bs, headInBlock, from, take);
            ok == r.Ok? && (ok ==> Wrote(old(out[..]), out[..], at, r.value))
    ensures out[..at] == old(out[..at]) && out[at + take..] == old(out[at + take..])
  {
    hide InterlacedIndex, Rotated, Wrote;
    ghost var was, done := out[..], [];
    RotatedNext(onDisk, onDiskLen, bs, headInBlock, from, 0);
    WroteNothing(was, at);
    for k := 0 to take
      invariant Rotated(onDisk, onDiskLen, bs, headInBlock, from, k) == Ok(done) && |done| == k
      invariant Wrote(was, out[..], at, done)
    {
      ghost var mid := out[..];
      RotatedNext(onDisk, onDiskLen, bs, headInBlock, from, k);
      var i := InterlacedIndex(onDiskLen, bs, headInBlock, from + k);
      if i >= |onDisk| {
        RotatedStops(onDisk, onDiskLen, bs, headInBlock, from, k + 1, take);
        WroteInside(was, out[..], at, done, take);
        return false;
      }
      out[at + k] := onDisk[i];
      WroteOne(was, mid, out[..], at, done, onDisk[i]);
      done := done + [onDisk[i]];
    }
    WroteInside(was, out[..], at, done, take);
    return true;
  }

  /** One more byte of a rotated extent. */
  lemma RotatedNext(onDisk: seq<byte>, len: nat, bs: nat, h: nat, from: nat, k: nat)
    requires h < bs <= len
    ensures Rotated(onDisk, len, bs, h, from, 0) == Ok([])
    ensures Rotated(onDisk, len, bs, h, from, k).Ok? ==>
              var at := InterlacedIndex(len, bs, h, from + k);
              Rotated(onDisk, len, bs, h, from, k + 1)
              == if at < |onDisk| then Ok(Rotated(onDisk, len, bs, h, from, k).value + [onDisk[at]]) else Err
  {
    hide InterlacedIndex;
  }

  lemma WroteNothing(was: seq<byte>, at: nat)
    requires at <= |was|
    ensures Wrote(was, was, at, [])
  {
  }

  lemma WroteOne(was: seq<byte>, mid: seq<byte>, now: seq<byte>, at: nat, bytes: seq<byte>, b: byte)
    requires Wrote(was, mid, at, bytes) && at + |bytes| < |was| && |mid| == |was| && now == mid[at + |bytes| := b]
    ensures Wrote(was, now, at, bytes + [b])
  {
  }

  lemma WroteInside(was: seq<byte>, now: seq<byte>, at: nat, bytes: seq<byte>, room: nat)
    requires Wrote(was, now, at, bytes) && |bytes| <= room && at + room <= |was|
    ensures |now| == |was| && now[..at] == was[..at] && now[at + room..] == was[at + room..]
  {
  }

  lemma {:induction false} RotatedStops(onDisk: seq<byte>, len: nat, bs: nat, h: nat, from: nat, k: nat, take: nat)
    requires h < bs <= len && k <= take && Rotated(onDisk, len, bs, h, from, k).Err?
    ensures Rotated(onDisk, len, bs, h, from, take).Err?
    decreases take
  {
    if k < take { RotatedStops(onDisk, len, bs, h, from, k, take - 1); }
  }

  // ----- The filesystem

  class Filesystem {
    const img: Image
    const cache: Cache

    /** The cache accounts for itself, every value has the length its key says, and clean inodes find the truth. */
    ghost predicate Valid()
      reads cache
    {
      cache.Valid() && Truthful(img, cache.lru, cache.byteLimit)
    }

    constructor (img: Image, capacity: nat, byteLimit: nat)
      ensures Valid() && fresh(cache) && this.img == img && cache.capacity == capacity
    {
      this.img := img;
      this.cache := new Cache(capacity, byteLimit);
    }

    /** The compressed arm of `fill_from_one_pcluster_for`: from the cache, or decoded and remembered. */
    method DecodedExtent(nid: nat, z: ZMap, x: Extent, ghost off: nat) returns (r: Result<seq<byte>>)
      requires Valid() && IsZMapOf(img, nid, z)
      requires Cached(ReadIndex(img.dev, z), z.LclusterSize(), z.size, off) && ExtentOf(img, z, off) == Ok(x)
      modifies cache
      ensures Valid() && cache.capacity == old(cache.capacity)
      ensures r.Ok? ==> x.start <= x.end && |r.value| == x.end - x.start
      ensures Clean(img, cache.byteLimit, nid) ==> r == DecodeExtent(img, z, x)
      ensures (cache.lru, r) == Serve(old(cache.lru), cache.capacity, cache.byteLimit,
                                      Request(KeyOf(nid, x), DecodeExtent(img, z, x)))
    {
      hide DecodeExtent, Cache.Valid, Truthful, Trim, Push, Without, ExtentOf, Clean, Universe, Cached;
      var key := KeyOf(nid, x);
      ghost var q := Request(key, DecodeExtent(img, z, x));
      IsFair(img, cache.byteLimit, q, z, off);
      ServeKeepsTruth(img, cache.lru, cache.capacity, cache.byteLimit, q);
      var cached := cache.Lookup(key);
      if cached.Some? {
        return Ok(cached.value);
      }
      r := DecodeExtent(img, z, x);
      if r.Ok? {
        cache.Insert(key, r.value);
      }
    }

    /** `fill_from_one_pcluster_for` behind the fragment redirect. */
    method FillFromExtentInto(nid: nat, z: ZMap, off: nat, out: array<byte>, at: nat) returns (r: Result<nat>)
      requires Valid() && IsZMapOf(img, nid, z) && at <= out.Length
      modifies cache, out
      ensures Valid() && cache.capacity == old(cache.capacity)
      ensures Framed(old(out[..]), out[..], at, out.Length - at, r)
      ensures Clean(img, cache.byteLimit, nid) ==> Filled(old(out[..]), out[..], at, FillFromExtent(img, z, off, out.Length - at), r)
    {
      hide DecodeExtent, Cache.Valid, Truthful, ExtentAt, Clean, Universe, Rotated, ZMap.TailInline, ZMap.Interlaced;
      hide Image.BlockSize, Image.Read, IsZMapOf, ReadIndex, ZMap.LclusterSize, DivCeil, Framed, Filled;
      NothingFilled(out[..], at, out.Length - at);
      var found := PclusterExtent(img.dev, z, off);
      if found.Err? {
        return Err;
      }
      var x := found.value;
      ExtentHasBlocks(ReadIndex(img.dev, z), z.LclusterSize(), z.size, off);
      if off < x.start || off > x.end {
        return Err;
      }
      var from, take := off - x.start, Min(out.Length - at, x.end - off);
      ghost var was := out[..];
      if x.ctype == PLAIN {
        r := CopyPlain(z, x, from, take, out, at);
        FrameMore(was, out[..], at, take, out.Length - at, r);
      } else {
        var whole := DecodedExtent(nid, z, x, off);
        if whole.Err? {
          return Err;
        }
        CopyFromSlice(out, at, whole.value[from..from + take]);
        SliceCopied(was, out[..], at, whole.value[from..from + take]);
        FrameMore(was, out[..], at, take, out.Length - at, Ok(take));
        return Ok(take);
      }
    }

    /** The uncompressed arms of `fill_from_one_pcluster_for`. */
    method CopyPlain(z: ZMap, x: Extent, from: nat, take: nat, out: array<byte>, at: nat) returns (r: Result<nat>)
      requires x.ctype == PLAIN && x.blockCount >= 1 && x.start + from + take <= x.end && at + take <= out.Length
      modifies out
      ensures Filled(old(out[..]), out[..], at, ExtentSlice(img, z, x, from, take), r)
      ensures Framed(old(out[..]), out[..], at, take, r)
    {
      hide Rotated, ZMap.TailInline, ZMap.Interlaced, Image.BlockSize, Image.Read;
      var bs := img.BlockSize();
      var source: Result<seq<byte>>;
      if InlineTail(z, x) {
        var (off, len) := z.TailInline().value;
        if z.Interlaced() {
          var span :- PclusterSpan(x);
          var headInBlock := x.start % bs;
          if headInBlock + span > len && headInBlock + span <= bs {
            if take > 0 {
              return Err;
            }
            source := Ok([]);
          } else {
            var inline :- img.Read(0, off, len);
            var ok := CopyRotated(out, at, inline, bs, bs, headInBlock, from, take);
            return if ok then Ok(take) else Err;
          }
        } else {
          if from + take > len {
            return Err;
          }
          source := img.Read(0, off + from, take);
        }
      } else if z.Interlaced() {
        MulMono(1, x.blockCount, bs);
        var onDiskLen := x.blockCount * bs;
        var span :- PclusterSpan(x);
        if span > onDiskLen {
          return Err;
        }
        var onDisk :- img.Read(0, x.blkaddr * bs, onDiskLen);
        var ok := CopyRotated(out, at, onDisk, onDiskLen, bs, x.start % bs, from, take);
        return if ok then Ok(take) else Err;
      } else {
        source := img.Read(0, x.blkaddr * bs + from, take);
      }
      if source.Err? {
        return Err;
      }
      CopyFromSlice(out, at, source.value);
      return Ok(take);
    }

    /** `fill_from_one_pcluster_for`. */
    method FillFromOnePcluster(inode: Inode, z: ZMap, off: nat, out: array<byte>, at: nat, ghost level: nat) returns (r: Result<nat>)
      requires Valid() && Readable(img, inode, level) && IsZMapOf(img, inode.nid, z) && at <= out.Length
      modifies cache, out
      ensures Valid() && cache.capacity == old(cache.capacity)
      ensures Framed(old(out[..]), out[..], at, out.Length - at, r)
      ensures AllClean(img, cache.byteLimit, inode, level) ==> Filled(old(out[..]), out[..], at, FillOne(img, z, off, out.Length - at, level), r)
      decreases level, 0
    {
      hide Cache.Valid, Truthful, Clean, Universe, FillFromExtent, ReadIndex, ReadFile, Image.Packed, Image.ZMapFor;
      hide ZMap.HasFragment, ZMap.HasFullFragment, ZMap.LclusterSize, DivCeil, FragmentCursor, FragmentHead, StartOf;
      hide Framed, Filled, Zeros, FragmentRange, Readable;
      var room := out.Length - at;
      ghost var was := out[..];
      NothingFilled(was, at, room);
      if off >= z.size {
        CopyFromSlice(out, at, Zeros(room));
        SliceCopied(was, out[..], at, Zeros(room));
        return Ok(room);
      }
      var range :- WorkOutFragmentRange(img.dev, z);
      if range.Some? && range.value.1 <= off < range.value.2 {
        var (fragmentoff, start, end) := range.value;
        var take, from := Min(room, end - off), fragmentoff + (off - start);
        var packed :- img.Packed();
        if from + take > packed.size {
          return Err;
        }
        RangeIsFragment(z, ReadIndex(img.dev, z));
        PackedIsReadable(img, cache.byteLimit, inode, z, level);
        r := ReadFileInto(packed, from, out, at, take, level - 1);
        FrameMore(was, out[..], at, take, room, r);
      } else {
        r := FillFromExtentInto(inode.nid, z, off, out, at);
      }
    }

    /** `read_compressed_block`. */
    method ReadCompressedBlock(inode: Inode, z: ZMap, block: nat, out: array<byte>, ghost level: nat) returns (r: Result<nat>)
      requires Valid() && Readable(img, inode, level) && IsZMapOf(img, inode.nid, z)
      modifies cache, out
      ensures Valid() && cache.capacity == old(cache.capacity)
      ensures r.Ok? ==> r.value == out.Length
      ensures AllClean(img, cache.byteLimit, inode, level) ==>
                Filled(old(out[..]), out[..], 0, ReadCompressed(img, z, img.BlockStart(block), out.Length, level), r)
      decreases level, 1
    {
      hide *;
      var start := img.BlockStart(block);
      var written := 0;
      ghost var was, done, whole := out[..], [], ReadCompressed(img, z, start, out.Length, level);
      ghost var clean := AllClean(img, cache.byteLimit, inode, level);
      RunStart(clean, was, 0, whole);
      while written < out.Length
        invariant 0 <= written == |done| <= out.Length
        invariant Valid() && cache.capacity == old(cache.capacity)
        invariant Running(clean, was, out[..], 0, done, whole, ReadCompressed(img, z, start + written, out.Length - written, level))
      {
        ghost var mid, spec := out[..], FillOne(img, z, start + written, out.Length - written, level);
        ghost var rest := FillStep(img, z, start + written, out.Length - written, level);
        var n := FillFromOnePcluster(inode, z, start + written, out, written, level);
        FrameCounts(mid, out[..], written, out.Length - written, n);
        ghost var more := RunStep(clean, was, mid, out[..], 0, done, spec, rest, whole, n);
        if n.Err? {
          return Err;
        }
        done := more;
        written := written + n.value;
        if n.value == 0 {
          ghost var filled := out[..];
          CopyFromSlice(out, written, Zeros(out.Length - written));
          RestIsZeros(clean, rest, spec, n.value, out.Length - written);
          RunZeros(clean, was, filled, out[..], done, whole, rest);
          return Ok(out.Length);
        }
        RestIsRead(clean, img, z, start + written, out.Length - written, level, rest, spec, n.value);
        RunsOn(clean, was, out[..], 0, done, whole, rest, ReadCompressed(img, z, start + written, out.Length - written, level));
      }
      NothingToFill(img, z, start + out.Length, level);
      RunDone(clean, was, out[..], 0, done, whole);
      return Ok(out.Length);
    }

    /** `read_data_block_for`. */
    method ReadDataBlockInto(inode: Inode, zmap: Option<ZMap>, block: nat, out: array<byte>, ghost level: nat) returns (r: Result<nat>)
      requires Valid() && Readable(img, inode, level)
      requires img.ZMapFor(inode) == Ok(zmap)
      modifies cache, out
      ensures Valid() && cache.capacity == old(cache.capacity)
      ensures r.Ok? ==> r.value == out.Length
      ensures AllClean(img, cache.byteLimit, inode, level) ==> Filled(old(out[..]), out[..], 0, ReadDataBlock(img, inode, zmap, block, out.Length, level), r)
      decreases level, 2
    {
      hide Cache.Valid, Truthful, Clean, Universe, ReadCompressed, Image.BlockSize, Image.OpenFor;
      hide ReadFlatBlock, ReadChunkBlock;
      if inode.layout.Compressed() {
        r := ReadCompressedBlock(inode, zmap.value, block, out, level);
      } else {
        var bytes :- if inode.layout.ChunkBased? then ReadChunkBlock(img, inode, block, out.Length)
                     else ReadFlatBlock(img, inode, block, out.Length);
        CopyFromSlice(out, 0, bytes);
        return Ok(out.Length);
      }
    }

    /** `read_file`, into `out[at..at + n]`. */
    method ReadFileInto(inode: Inode, off: nat, out: array<byte>, at: nat, n: nat, ghost level: nat) returns (r: Result<nat>)
      requires Valid() && Readable(img, inode, level) && at + n <= out.Length
      modifies cache, out
      ensures Valid() && cache.capacity == old(cache.capacity)
      ensures Framed(old(out[..]), out[..], at, n, r) && (r.Ok? ==> r.value == n)
      ensures AllClean(img, cache.byteLimit, inode, level) ==> Filled(old(out[..]), out[..], at, ReadFile(img, inode, off, n, level), r)
      decreases level, 4
    {
      hide Cache.Valid, Truthful, Clean, Universe, ReadDataBlock, Image.BlockSize, Image.ZMapFor, Readable, AllClean;
      if off + n > inode.size {
        return Err;
      }
      if n == 0 {
        assert out[..] == out[..at] + [] + out[at..];
        return Ok(0);
      }
      var zmap :- img.ZMapFor(inode);
      r := ReadBlocksInto(inode, zmap, off, out, at, n, level);
    }

    /** The loop of `read_file`. */
    method ReadBlocksInto(inode: Inode, zmap: Option<ZMap>, off: nat, out: array<byte>, at: nat, n: nat, ghost level: nat)
      returns (r: Result<nat>)
      requires Valid() && Readable(img, inode, level) && at + n <= out.Length && off + n <= inode.size
      requires img.ZMapFor(inode) == Ok(zmap)
      modifies cache, out
      ensures Valid() && cache.capacity == old(cache.capacity)
      ensures Framed(old(out[..]), out[..], at, n, r) && (r.Ok? ==> r.value == n)
      ensures AllClean(img, cache.byteLimit, inode, level) ==> Filled(old(out[..]), out[..], at, ReadBlocks(img, inode, zmap, off, n, level), r)
      decreases level, 3, 1
    {
      hide *;
      var written := 0;
      ghost var was, done, whole := out[..], [], ReadBlocks(img, inode, zmap, off, n, level);
      ghost var clean := AllClean(img, cache.byteLimit, inode, level);
      RunStart(clean, was, at, whole);
      NothingFramed(was, at, n, Ok(0));
      while written < n
        invariant 0 <= written == |done| <= n
        invariant Valid() && cache.capacity == old(cache.capacity) && Framed(was, out[..], at, n, Ok(written))
        invariant Running(clean, was, out[..], at, done, whole, ReadBlocks(img, inode, zmap, off + written, n - written, level))
      {
        ghost var mid := out[..];
        var p := PieceAt(inode.size, img.BlockSize(), off + written, n - written);
        BlocksStep(img, inode, zmap, off + written, n - written, level);
        ghost var piece := PieceBytes(ReadDataBlock(img, inode, zmap, p.block, p.valid, level), p);
        var got := CopyPiece(inode, zmap, p, out, at + written, level);
        FramesJoin(was, mid, out[..], at, n, written, p.take, got);
        ghost var more := RunStep(clean, was, mid, out[..], at, done, piece,
                                  ReadBlocks(img, inode, zmap, off + written + p.take, n - written - p.take, level), whole, got);
        if got.Err? {
          return Err;
        }
        done := more;
        written := written + p.take;
      }
      NoBlocks(img, inode, zmap, off + n, level);
      RunDone(clean, was, out[..], at, done, whole);
      return Ok(n);
    }

    /** One turn of that loop: a block into a buffer of its own, and the piece asked for out of it. */
    method CopyPiece(inode: Inode, zmap: Option<ZMap>, p: Piece, out: array<byte>, at: nat, ghost level: nat)
      returns (r: Result<nat>)
      requires Valid() && Readable(img, inode, level) && at + p.take <= out.Length && p.from + p.take <= p.valid
      requires img.ZMapFor(inode) == Ok(zmap)
      modifies cache, out
      ensures Valid() && cache.capacity == old(cache.capacity)
      ensures Framed(old(out[..]), out[..], at, p.take, r) && (r.Ok? ==> r.value == p.take)
      ensures AllClean(img, cache.byteLimit, inode, level) ==>
                Filled(old(out[..]), out[..], at, PieceBytes(ReadDataBlock(img, inode, zmap, p.block, p.valid, level), p), r)
      decreases level, 3, 0
    {
      hide Valid, Readable, ReadDataBlock, Image.ZMapFor, AllClean, Filled, Framed, PieceBytes;
      ghost var was, spec := out[..], ReadDataBlock(img, inode, zmap, p.block, p.valid, level);
      var block := new byte[p.valid](_ => 0);
      ghost var blank, clean := block[..], AllClean(img, cache.byteLimit, inode, level);
      var got := ReadDataBlockInto(inode, zmap, p.block, block, level);
      if got.Err? {
        if clean {
          FailedBlock(blank, block[..], spec);
        }
        NothingRead(was, at, p.take, spec, p);
        return Err;
      }
      if clean {
        FilledWhole(blank, block[..], spec, got);
      }
      CopyFromSlice(out, at, block[p.from..p.from + p.take]);
      PieceCopied(was, out[..], at, block[..], p);
      return Ok(p.take);
    }
  }

  lemma FailedBlock(was: seq<byte>, now: seq<byte>, spec: Result<seq<byte>>)
    requires Filled(was, now, 0, spec, Err)
    ensures spec == Err
  {
  }

  /** A buffer filled from end to end is what was put into it. */
  lemma FilledWhole(was: seq<byte>, now: seq<byte>, spec: Result<seq<byte>>, got: Result<nat>)
    requires Filled(was, now, 0, spec, got) && got == Ok(|was|)
    ensures spec == Ok(now)
  {
    match spec
    case Ok(bytes) => assert now == bytes;
    case Err =>
  }

  lemma NothingRead(was: seq<byte>, at: nat, take: nat, block: Result<seq<byte>>, p: Piece)
    requires at + take <= |was|
    ensures Framed(was, was, at, take, Err)
    ensures p.from + p.take <= p.valid && block.Err? ==> Filled(was, was, at, PieceBytes(block, p), Err)
  {
  }

  /** A piece of a block, copied into place. */
  lemma PieceCopied(was: seq<byte>, now: seq<byte>, at: nat, block: seq<byte>, p: Piece)
    requires p.from + p.take <= p.valid == |block| && at + p.take <= |was|
    requires now == was[..at] + block[p.from..p.from + p.take] + was[at + p.take..]
    ensures Framed(was, now, at, p.take, Ok(p.take))
    ensures Filled(was, now, at, PieceBytes(Ok(block), p), Ok(p.take))
  {
  }

  lemma NothingFilled(was: seq<byte>, at: nat, room: nat)
    requires at + room <= |was|
    ensures Framed(was, was, at, room, Err) && Filled(was, was, at, Err, Err)
  {
  }

  lemma SliceCopied(was: seq<byte>, now: seq<byte>, at: nat, bytes: seq<byte>)
    requires at + |bytes| <= |was| && now == was[..at] + bytes + was[at + |bytes|..]
    ensures Framed(was, now, at, |bytes|, Ok(|bytes|)) && Filled(was, now, at, Ok(bytes), Ok(|bytes|))
  {
  }

  lemma FrameMore(was: seq<byte>, now: seq<byte>, at: nat, take: nat, room: nat, r: Result<nat>)
    requires Framed(was, now, at, take, r) && take <= room && at + room == |was|
    ensures Framed(was, now, at, room, r)
  {
  }

  lemma FrameCounts(was: seq<byte>, now: seq<byte>, at: nat, room: nat, r: Result<nat>)
    requires Framed(was, now, at, room, r)
    ensures r.Ok? ==> r.value <= room
  {
  }

  lemma NothingFramed(was: seq<byte>, at: nat, room: nat, r: Result<nat>)
    requires at + room <= |was| && (r.Ok? ==> r.value <= room)
    ensures Framed(was, was, at, room, r)
  {
  }

  /** What writes inside a part of the frame writes inside the frame. */
  lemma FramesJoin(was: seq<byte>, mid: seq<byte>, now: seq<byte>, at: nat, n: nat, done: nat, take: nat, r: Result<nat>)
    requires Framed(was, mid, at, n, Ok(done)) && Framed(mid, now, at + done, take, r) && done + take <= n
    ensures Framed(was, now, at, n, if r.Ok? then Ok(done + take) else Err)
  {
    assert now[..at] == now[..at + done][..at] == mid[..at + done][..at] == mid[..at];
    assert now[at + n..] == now[at + done + take..][n - done - take..];
    assert mid[at + n..] == mid[at + done + take..][n - done - take..];
  }

  // ----- A loop that writes one piece after another

  /** So far `done` was written, and the whole is that and what is still to come; on a clean inode, that is. */
  ghost predicate Running(clean: bool, was: seq<byte>, now: seq<byte>, at: nat, done: seq<byte>,
                          whole: Result<seq<byte>>, rest: Result<seq<byte>>)
  {
    clean ==> Wrote(was, now, at, done) && whole == Both(Ok(done), rest)
  }

  lemma RunStart(clean: bool, was: seq<byte>, at: nat, whole: Result<seq<byte>>)
    requires at <= |was|
    ensures Running(clean, was, was, at, [], whole, whole)
  {
    BothWithNothing(whole);
  }

  lemma RunStep(clean: bool, was: seq<byte>, mid: seq<byte>, now: seq<byte>, at: nat, done: seq<byte>,
                piece: Result<seq<byte>>, later: Result<seq<byte>>, whole: Result<seq<byte>>, got: Result<nat>)
    returns (more: seq<byte>)
    requires Running(clean, was, mid, at, done, whole, Both(piece, later))
    requires clean ==> Filled(mid, now, at + |done|, piece, got)
    ensures got.Err? && clean ==> Filled(was, now, at, whole, Err)
    ensures got.Ok? ==> |more| == |done| + got.value && Running(clean, was, now, at, more, whole, later)
    ensures got.Ok? && clean ==> piece.Ok? && |piece.value| == got.value
  {
    BothAssociates(Ok(done), piece, later);
    more := if clean && piece.Ok? then done + piece.value else if got.Ok? then done + Zeros(got.value) else done;
  }

  lemma RunDone(clean: bool, was: seq<byte>, now: seq<byte>, at: nat, done: seq<byte>, whole: Result<seq<byte>>)
    requires Running(clean, was, now, at, done, whole, Ok([]))
    ensures clean ==> Filled(was, now, at, whole, Ok(|done|))
  {
    BothWithNothing(Ok(done));
  }

  lemma RunsOn(clean: bool, was: seq<byte>, now: seq<byte>, at: nat, done: seq<byte>, whole: Result<seq<byte>>,
               rest: Result<seq<byte>>, same: Result<seq<byte>>)
    requires Running(clean, was, now, at, done, whole, rest) && (clean ==> rest == same)
    ensures Running(clean, was, now, at, done, whole, same)
  {
  }

  lemma RestIsZeros(clean: bool, rest: Result<seq<byte>>, spec: Result<seq<byte>>, got: nat, room: nat)
    requires clean ==> spec.Ok? && |spec.value| == got
    requires got == 0 && (spec.Ok? && |spec.value| == 0 ==> rest == Ok(Zeros(room)))
    ensures clean ==> rest == Ok(Zeros(room))
  {
  }

  lemma RestIsRead(clean: bool, img: Image, z: ZMap, off: nat, room: nat, level: nat, rest: Result<seq<byte>>, spec: Result<seq<byte>>, got: nat)
    requires clean ==> spec.Ok? && |spec.value| == got
    requires got > 0 && (spec.Ok? && |spec.value| == got ==> rest == ReadCompressed(img, z, off, room, level))
    ensures clean ==> rest == ReadCompressed(img, z, off, room, level)
  {
    hide ReadCompressed;
  }

  /** No progress: the rest is zeros. */
  lemma RunZeros(clean: bool, was: seq<byte>, mid: seq<byte>, now: seq<byte>, done: seq<byte>, whole: Result<seq<byte>>, rest: Result<seq<byte>>)
    requires Running(clean, was, mid, 0, done, whole, rest) && |done| <= |mid|
    requires clean ==> rest == Ok(Zeros(|mid| - |done|))
    requires now == mid[..|done|] + Zeros(|mid| - |done|) + mid[|done| + |Zeros(|mid| - |done|)|..]
    ensures clean ==> Filled(was, now, 0, whole, Ok(|mid|))
  {
    hide Zeros;
    if clean {
      var zs := Zeros(|mid| - |done|);
      CopyWrites(mid, now, |done|, zs);
      WroteMore(was, mid, now, 0, done, zs);
      JoinedPieces(done, zs);
    }
  }

  lemma CopyWrites(was: seq<byte>, now: seq<byte>, at: nat, bytes: seq<byte>)
    requires at + |bytes| <= |was| && now == was[..at] + bytes + was[at + |bytes|..]
    ensures Wrote(was, now, at, bytes)
  {
  }

  /** One turn of the fill loop: what it got, and what is still to come. */
  lemma FillStep(img: Image, z: ZMap, off: nat, room: nat, level: nat) returns (rest: Result<seq<byte>>)
    requires room > 0
    ensures var got := FillOne(img, z, off, room, level);
            && ReadCompressed(img, z, off, room, level) == Both(got, rest)
            && (got.Ok? ==> |got.value| <= room)
            && (got.Ok? && |got.value| > 0 ==> rest == ReadCompressed(img, z, off + |got.value|, room - |got.value|, level))
            && (got.Ok? && |got.value| == 0 ==> rest == Ok(Zeros(room)))
  {
    hide FillOne;
    var got := FillOne(img, z, off, room, level);
    rest := if got.Err? then Err
            else if got.value == [] then Ok(Zeros(room))
            else ReadCompressed(img, z, off + |got.value|, room - |got.value|, level);
    BothWithNothing(rest);
  }

  lemma JoinedPieces(a: seq<byte>, b: seq<byte>)
    ensures Both(Ok(a), Ok(b)) == Ok(a + b)
  {
  }

  lemma NothingToFill(img: Image, z: ZMap, off: nat, level: nat)
    ensures ReadCompressed(img, z, off, 0, level) == Ok([])
  {
  }

  lemma RangeIsFragment(z: ZMap, idx: Index)
    requires |idx| == z.NLclusters()
    ensures FragmentRange(z, idx).Ok? && FragmentRange(z, idx).value.Some? ==> z.HasFragment()
  {
    hide ZMap.HasFragment, ZMap.HasFullFragment, FragmentCursor, FragmentHead, StartOf;
  }

  /** Redirected, a read is one of the packed inode, with one redirect less to go. */
  lemma PackedIsReadable(img: Image, limit: nat, inode: Inode, z: ZMap, level: nat)
    requires Readable(img, inode, level) && IsZMapOf(img, inode.nid, z) && z.HasFragment() && img.Packed().Ok?
    ensures level > 0 && Readable(img, img.Packed().value, level - 1)
    ensures AllClean(img, limit, inode, level) ==> AllClean(img, limit, img.Packed().value, level - 1)
  {
    hide Clean, Image.ZMapFor, ZMap.HasFragment;
  }

  /** What a read asks the cache for is fair. */
  lemma IsFair(img: Image, limit: nat, q: Request, z: ZMap, off: nat)
    requires IsZMapOf(img, q.key.nid, z) && Cached(ReadIndex(img.dev, z), z.LclusterSize(), z.size, off)
    requires q == Request(KeyOf(q.key.nid, ExtentOf(img, z, off).value), DecodeExtent(img, z, ExtentOf(img, z, off).value))
    ensures FairRequest(img, limit, q)
  {
    hide DecodeExtent, ExtentAt, ReadIndex, Clean, IsZMapOf, ZMap.LclusterSize;
    DecodedLength(img, z, ExtentOf(img, z, off).value);
    if Clean(img, limit, q.key.nid) {
      assert RequestAt(img, q.key.nid, z, off, q);
      assert IsRequest(img, limit, q, z);
    }
  }
}
