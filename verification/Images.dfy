/** What the read path is given: devices, inodes, and a codec. */
module Images {
  import opened Basics
  import opened Bits
  import opened ZMapReader

  const EROFS_INODE_SLOT_SIZE: nat := 32
  const EROFS_NULL_ADDR: nat := 0xFFFF_FFFF

  datatype Layout = FlatPlain | FlatInline | ChunkBased | Compression | CompressionLegacy {
    predicate Compressed() {
      Compression? || CompressionLegacy?
    }
  }

  datatype Inode = Inode(nid: nat, size: nat, layout: Layout, rawU: nat, onDiskSize: nat, xattrIcount: nat)

  /**
   An opened filesystem without its cache. `codec(algo, prefix, frame, n)` asks codec
   `algo` to fill `n` bytes from `frame`; with `prefix` it may stop before the frame ends.
   `inodes(nid)` is what `Inode::read` makes of slot `nid`.
   */
  datatype Image = Image(
    dev: seq<byte>, extras: seq<seq<byte>>, blkszbits: nat, metaBlkaddr: nat, zeroPadding: bool,
    codec: (nat, bool, seq<byte>, nat) -> Result<seq<byte>>,
    inodes: nat -> Result<Inode>, packedNid: nat)
  {
    function BlockSize(): (bs: nat)
      ensures bs > 0
    {
      Pow2(blkszbits)
    }
    /** Where a block starts. */
    function BlockStart(block: nat): nat {
      block * BlockSize()
    }
    /** `Inode::iloc`. */
    function Iloc(nid: nat): nat {
      metaBlkaddr * BlockSize() + nid * EROFS_INODE_SLOT_SIZE
    }
    /** `Inode::body_end`: behind the body and its inline xattrs. */
    function BodyEnd(inode: Inode): nat {
      Iloc(inode.nid) + inode.onDiskSize
      + (if inode.xattrIcount == 0 then 0 else 12 + (inode.xattrIcount - 1) * 4)
    }
    /** `device_for`: 0 is the primary device, `k` the `k`th extra one. */
    function Device(id: nat): Result<seq<byte>> {
      if id == 0 then Ok(dev) else if id <= |extras| then Ok(extras[id - 1]) else Err
    }
    function Read(id: nat, off: nat, len: nat): (r: Result<seq<byte>>)
      ensures r.Ok? ==> |r.value| == len
    {
      var d :- Device(id);
      ReadAt(d, off, len)
    }
    /** `packed_inode`. */
    function Packed(): Result<Inode> {
      if packedNid == 0 then Err else inodes(packedNid)
    }
    function OpenFor(inode: Inode): Result<ZMap> {
      OpenZMap(dev, BodyEnd(inode), inode.size, blkszbits, inode.layout.CompressionLegacy?)
    }
    /** `zmap_for`. */
    function ZMapFor(inode: Inode): Result<Option<ZMap>> {
      if inode.layout.Compressed() then
        var z :- OpenFor(inode);
        Ok(Some(z))
      else Ok(None)
    }
  }

  lemma ZMapForSize(img: Image, inode: Inode)
    ensures var z := img.ZMapFor(inode);
            z.Ok? && z.value.Some? ==> z.value.value.size == inode.size && z.value.value.blkszbits == img.blkszbits
  {
    hide HasBit, DivCeil, LE;
  }

  // ----- Decompression

  function LeadingZeros(s: seq<byte>): (n: nat)
    ensures n <= |s| && (forall i :: 0 <= i < n ==> s[i] == 0) && (n < |s| ==> s[n] != 0)
  {
    if s == [] || s[0] != 0 then 0 else 1 + LeadingZeros(s[1..])
  }

  /** `strip_leading_pad`. */
  function StripLeadingPad(input: seq<byte>): Result<seq<byte>> {
    var pad := LeadingZeros(input);
    if pad == |input| then Err else Ok(input[pad..])
  }

  /** `decode`: exactly `n` bytes out of `input`, or nothing. */
  function Decompress(img: Image, algo: nat, prefix: bool, input: seq<byte>, n: nat): (r: Result<seq<byte>>)
    ensures r.Ok? ==> |r.value| == n
  {
    if input == [] && n == 0 then Ok([])
    else
      var frame :- if img.zeroPadding then StripLeadingPad(input) else Ok(input);
      var out :- img.codec(algo, prefix, frame, n);
      if |out| == n then Ok(out) else Err
  }

  /** Padding in front of a frame that does not itself start with a zero byte is lost on nobody. */
  lemma StripUndoesPad(k: nat, frame: seq<byte>)
    requires frame != [] && frame[0] != 0
    ensures StripLeadingPad(Zeros(k) + frame) == Ok(frame)
  {
    var s := Zeros(k) + frame;
    var n := LeadingZeros(s);
    assert s[k] == frame[0];
    assert s[k..] == frame;
  }
}
