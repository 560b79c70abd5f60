/**
 Directory blocks: dirents in front, names behind. The writer sorts and packs them, the
 reader walks them, and both see the same entries.
 */
module Directory {
  import opened Basics
  import opened Bits

  const EROFS_DIRENT_SIZE: nat := 12
  const FT_DIR: byte := 2
  const DOT: byte := 46

  datatype DirEntry = DirEntry(nid: nat, fileType: byte, name: seq<byte>)

  /** A name a directory can legitimately list. */
  predicate ValidName(name: seq<byte>) {
    name != [] && 0 !in name && SLASH !in name
  }

  // ----- The reader

  /** `dirent_count`. */
  function DirentCount(block: seq<byte>): (r: Result<nat>)
    ensures r.Ok? ==> r.value >= 1 && r.value * EROFS_DIRENT_SIZE <= |block|
  {
    if |block| < EROFS_DIRENT_SIZE then Err
    else
      var first := LE(block[8..10]);
      if first < EROFS_DIRENT_SIZE || first > |block| || first % EROFS_DIRENT_SIZE != 0 then Err
      else Ok(first / EROFS_DIRENT_SIZE)
  }

  function NameOff(block: seq<byte>, i: nat): nat
    requires (i + 1) * EROFS_DIRENT_SIZE <= |block|
  {
    LE(block[i * EROFS_DIRENT_SIZE + 8..i * EROFS_DIRENT_SIZE + 10])
  }

  /** The first NUL at or behind `e`, or the end of the block. */
  function NulOrEnd(block: seq<byte>, e: nat): (r: nat)
    requires e <= |block|
    ensures e <= r <= |block|
    decreases |block| - e
  {
    if e < |block| && block[e] != 0 then NulOrEnd(block, e + 1) else e
  }

  /** Where the name of dirent `i` of `n` ends. */
  function NameEnd(block: seq<byte>, n: nat, i: nat): (r: Result<nat>)
    requires i < n && n * EROFS_DIRENT_SIZE <= |block| && NameOff(block, i) <= |block|
    ensures r.Ok? ==> NameOff(block, i) <= r.value <= |block|
  {
    if i + 1 < n then
      var next := NameOff(block, i + 1);
      if next < NameOff(block, i) || next > |block| then Err else Ok(next)
    else Ok(NulOrEnd(block, NameOff(block, i)))
  }

  /** Dirent `i` of `n`, validated. */
  function DirentAt(block: seq<byte>, n: nat, i: nat): (r: Result<DirEntry>)
    requires i < n && n * EROFS_DIRENT_SIZE <= |block|
    ensures r.Ok? ==> ValidName(r.value.name)
  {
    var off, nameoff := i * EROFS_DIRENT_SIZE, NameOff(block, i);
    if nameoff < n * EROFS_DIRENT_SIZE || nameoff > |block| then Err
    else
      var end :- NameEnd(block, n, i);
      var name := block[nameoff..end];
      if ValidName(name) then Ok(DirEntry(LE(block[off..off + 8]), block[off + 10], name)) else Err
  }

  function DirentsFrom(block: seq<byte>, n: nat, i: nat): Result<seq<DirEntry>>
    requires i <= n && n * EROFS_DIRENT_SIZE <= |block|
    decreases n - i
  {
    if i == n then Ok([])
    else
      var e :- DirentAt(block, n, i);
      var rest :- DirentsFrom(block, n, i + 1);
      Ok([e] + rest)
  }

  /** `iter_block`. */
  function IterBlock(block: seq<byte>): Result<seq<DirEntry>> {
    var n :- DirentCount(block);
    DirentsFrom(block, n, 0)
  }

  /**
   `visit_block`, with what it hands to its callback collected in order. On an error the
   entries in front of the malformed one have already been handed over.
   */
  method VisitBlock(block: seq<byte>) returns (ok: bool, visited: seq<DirEntry>)
    ensures ok == IterBlock(block).Ok? && (ok ==> visited == IterBlock(block).value)
  {
    hide LE, ValidName, DirentsFrom, DirentCount, NameEnd, NameOff;
    visited := [];
    var count := DirentCount(block);
    if count.Err? {
      return false, visited;
    }
    var n := count.value;
    assert Prepend([], DirentsFrom(block, n, 0)) == DirentsFrom(block, n, 0) by { PrependNone(DirentsFrom(block, n, 0)); }
    for i := 0 to n
      invariant IterBlock(block) == Prepend(visited, DirentsFrom(block, n, i))
    {
      EntriesStep(block, n, i);
      ghost var before := visited;
      var off, nameoff := i * EROFS_DIRENT_SIZE, NameOff(block, i);
      if nameoff < n * EROFS_DIRENT_SIZE || nameoff > |block| {
        return false, visited;
      }
      var nameEnd := FindNameEnd(block, n, i);
      if nameEnd.Err? {
        return false, visited;
      }
      var name := block[nameoff..nameEnd.value];
      if !ValidName(name) {
        return false, visited;
      }
      visited := visited + [DirEntry(LE(block[off..off + 8]), block[off + 10], name)];
      PrependTwice(before, [visited[|before|]], DirentsFrom(block, n, i + 1));
    }
    NoMoreEntries(block, n);
    assert visited + [] == visited;
    return true, visited;
  }

  /** The scan inside `visit_block` for the end of a name. */
  method FindNameEnd(block: seq<byte>, n: nat, i: nat) returns (r: Result<nat>)
    requires i < n && n * EROFS_DIRENT_SIZE <= |block| && NameOff(block, i) <= |block|
    ensures r == NameEnd(block, n, i)
  {
    hide LE;
    var nameoff := NameOff(block, i);
    if i + 1 < n {
      var next := NameOff(block, i + 1);
      return if next < nameoff || next > |block| then Err else Ok(next);
    }
    var e := nameoff;
    while e < |block| && block[e] != 0
      invariant nameoff <= e <= |block| && NulOrEnd(block, e) == NulOrEnd(block, nameoff)
    {
      e := e + 1;
    }
    return Ok(e);
  }

  lemma EntriesStep(block: seq<byte>, n: nat, i: nat)
    requires i < n && n * EROFS_DIRENT_SIZE <= |block|
    ensures var e := DirentAt(block, n, i);
            DirentsFrom(block, n, i) == if e.Ok? then Prepend([e.value], DirentsFrom(block, n, i + 1)) else Err
  {
    hide DirentAt;
  }

  lemma NoMoreEntries(block: seq<byte>, n: nat)
    requires n * EROFS_DIRENT_SIZE <= |block|
    ensures DirentsFrom(block, n, n) == Ok([])
  {
  }

  // ----- One written block

  function NamesLen(es: seq<DirEntry>): nat {
    if es == [] then 0 else NamesLen(es[..|es| - 1]) + |es[|es| - 1].name|
  }

  function Names(es: seq<DirEntry>): (s: seq<byte>)
    ensures |s| == NamesLen(es)
  {
    if es == [] then [] else Names(es[..|es| - 1]) + es[|es| - 1].name
  }

  function DirentBytes(e: DirEntry, nameoff: nat): (s: seq<byte>)
    ensures |s| == EROFS_DIRENT_SIZE
  {
    ToLE(e.nid, 8) + ToLE(nameoff, 2) + [e.fileType, 0]
  }

  /** The dirents of `es`, their names starting at `base`. */
  function Dirents(es: seq<DirEntry>, base: nat): (s: seq<byte>)
    ensures |s| == |es| * EROFS_DIRENT_SIZE
  {
    if es == [] then []
    else
      var front := es[..|es| - 1];
      Dirents(front, base) + DirentBytes(es[|es| - 1], base + NamesLen(front))
  }

  predicate FitsBlock(es: seq<DirEntry>, bs: nat) {
    |es| * EROFS_DIRENT_SIZE + NamesLen(es) <= bs
  }

  function BlockBytes(es: seq<DirEntry>, bs: nat): (s: seq<byte>)
    requires FitsBlock(es, bs)
    ensures |s| == bs
  {
    var header := |es| * EROFS_DIRENT_SIZE;
    Dirents(es, header) + Names(es) + Zeros(bs - header - NamesLen(es))
  }

  /** `encode_one_dir_block`. */
  method EncodeOneDirBlock(es: seq<DirEntry>, bs: nat) returns (r: Result<array<byte>>)
    ensures r.Ok? <==> FitsBlock(es, bs)
    ensures r.Ok? ==> fresh(r.value) && r.value[..] == BlockBytes(es, bs)
  {
    hide DirentBytes, ToLE;
    var header, names := |es| * EROFS_DIRENT_SIZE, 0;
    for i := 0 to |es|
      invariant names == NamesLen(es[..i])
    {
      assert es[..i + 1][..i] == es[..i];
      names := names + |es[i].name|;
    }
    assert es[..|es|] == es;
    if header + names > bs {
      return Err;
    }
    var buf := new byte[bs](_ => 0);
    var cursor: nat := header;
    NothingPut(es[..0], header, bs);
    assert buf[..] == Zeros(bs);
    for i := 0 to |es|
      invariant cursor == header + NamesLen(es[..i]) <= bs
      invariant buf[..] == Partial(es[..i], header, bs)
    {
      assert es[..i + 1][..i] == es[..i];
      NamesGrow(es, i + 1);
      assert es[..i + 1][i] == es[i];
      PutEntry(buf, es[..i + 1], header, cursor);
      cursor := cursor + |es[i].name|;
    }
    assert es[..|es|] == es;
    Complete(es, header, bs);
    return Ok(buf);
  }

  /** A block of which the dirents and names of `es` are written, out of `header / 12`. */
  function Partial(es: seq<DirEntry>, header: nat, bs: nat): seq<byte>
    requires |es| * EROFS_DIRENT_SIZE <= header && header + NamesLen(es) <= bs
  {
    Dirents(es, header) + Zeros(header - |es| * EROFS_DIRENT_SIZE) + Names(es) + Zeros(bs - header - NamesLen(es))
  }

  lemma NothingPut(none: seq<DirEntry>, header: nat, bs: nat)
    requires none == [] && header <= bs
    ensures Partial(none, header, bs) == Zeros(bs)
  {
  }

  lemma Complete(es: seq<DirEntry>, header: nat, bs: nat)
    requires header == |es| * EROFS_DIRENT_SIZE && FitsBlock(es, bs)
    ensures Partial(es, header, bs) == BlockBytes(es, bs)
  {
    hide Dirents, Names;
    assert Zeros(0) == [];
  }

  /** The last dirent of `es` and its name, into a block that holds the others. */
  method PutEntry(buf: array<byte>, es: seq<DirEntry>, header: nat, cursor: nat)
    requires es != [] && |es| * EROFS_DIRENT_SIZE <= header && header + NamesLen(es) <= buf.Length
    requires NamesLen(es[..|es| - 1]) <= NamesLen(es)
    requires cursor == header + NamesLen(es[..|es| - 1])
    requires buf[..] == Partial(es[..|es| - 1], header, buf.Length)
    modifies buf
    ensures buf[..] == Partial(es, header, buf.Length)
  {
    hide *;
    var i := |es| - 1;
    PartialStep(es, header, buf.Length, cursor);
    TwoWrites(buf[..], Dirents(es[..i], header), DirentBytes(es[i], cursor), header - i * EROFS_DIRENT_SIZE,
              Names(es[..i]), es[i].name, buf.Length - cursor);
    PutBoth(buf, i * EROFS_DIRENT_SIZE, DirentBytes(es[i], cursor), cursor, es[i].name);
  }

  /** The two copies into one block. */
  method PutBoth(buf: array<byte>, off: nat, d: seq<byte>, at: nat, name: seq<byte>)
    requires off + |d| <= buf.Length && at + |name| <= buf.Length
    modifies buf
    ensures var once := old(buf[..off]) + d + old(buf[off + |d|..]);
            buf[..] == once[..at] + name + once[at + |name|..]
  {
    CopyFromSlice(buf, off, d);
    ghost var once := buf[..];
    CopyFromSlice(buf, at, name);
    assert buf[..] == once[..at] + name + once[at + |name|..];
  }

  lemma PartialStep(es: seq<DirEntry>, header: nat, bs: nat, cursor: nat)
    requires es != [] && |es| * EROFS_DIRENT_SIZE <= header && header + NamesLen(es) <= bs
    requires NamesLen(es[..|es| - 1]) <= NamesLen(es) && cursor == header + NamesLen(es[..|es| - 1])
    ensures var i := |es| - 1;
            var a, b, d, name := Dirents(es[..i], header), Names(es[..i]), DirentBytes(es[i], cursor), es[i].name;
            var room, left := header - i * EROFS_DIRENT_SIZE, bs - cursor;
            && |a| == i * EROFS_DIRENT_SIZE && |b| == NamesLen(es[..i]) && |d| == EROFS_DIRENT_SIZE <= room && |name| <= left
            && Partial(es[..i], header, bs) == a + Zeros(room) + b + Zeros(left)
            && Partial(es, header, bs) == (a + d) + Zeros(room - |d|) + (b + name) + Zeros(left - |name|)
  {
    hide DirentBytes, Zeros;
  }

  lemma {:induction false} NamesGrow(es: seq<DirEntry>, i: nat)
    requires i <= |es|
    ensures NamesLen(es[..i]) <= NamesLen(es)
    decreases |es|
  {
    if i == |es| {
      assert es[..i] == es;
    } else {
      assert es[..|es| - 1][..i] == es[..i];
      NamesGrow(es[..|es| - 1], i);
    }
  }

  /** A dirent and a name, each written at the front of its own run of zeros. */
  lemma TwoWrites(buf: seq<byte>, a: seq<byte>, d: seq<byte>, room: nat, b: seq<byte>, name: seq<byte>, left: nat)
    requires |d| <= room && |name| <= left && buf == a + Zeros(room) + b + Zeros(left)
    ensures |a| + |d| <= |buf|
    ensures var once := buf[..|a|] + d + buf[|a| + |d|..];
            var at := |a| + room + |b|;
            && at + |name| <= |once|
            && once[..at] + name + once[at + |name|..] == (a + d) + Zeros(room - |d|) + (b + name) + Zeros(left - |name|)
  {
    ZerosSplit(room, |d|);
    ZerosSplit(left, |name|);
    var once := buf[..|a|] + d + buf[|a| + |d|..];
    assert once == (a + d) + Zeros(room - |d|) + b + Zeros(left);
  }

  lemma ZerosSplit(n: nat, k: nat)
    requires k <= n
    ensures Zeros(n) == Zeros(k) + Zeros(n - k)
  {
  }
}
