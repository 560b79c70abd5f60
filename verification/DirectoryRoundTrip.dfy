/**
 A directory from its children to its listing: sort, pack, encode, read, look up.
 */
module DirectoryRoundTrip {
  import opened Basics
  import opened Bits
  import opened CompactRoundTrip
  import opened Directory

  /** An entry that can be written and listed. */
  ghost predicate WritableEntry(e: DirEntry) {
    ValidName(e.name) && e.nid < Pow2(64)
  }

  ghost predicate Writable(es: seq<DirEntry>) {
    forall i :: 0 <= i < |es| ==> WritableEntry(es[i])
  }

  // ----- One block

  lemma {:induction false} DirentIs(es: seq<DirEntry>, base: nat, i: nat)
    requires i < |es|
    ensures Dirents(es, base)[i * EROFS_DIRENT_SIZE..(i + 1) * EROFS_DIRENT_SIZE]
            == DirentBytes(es[i], base + NamesLen(es[..i]))
    decreases |es|
  {
    hide DirentBytes;
    var n := |es| - 1;
    var front, last := Dirents(es[..n], base), DirentBytes(es[n], base + NamesLen(es[..n]));
    assert Dirents(es, base) == front + last;
    if i < n {
      assert es[..n][..i] == es[..i];
      DirentIs(es[..n], base, i);
      assert (front + last)[i * EROFS_DIRENT_SIZE..(i + 1) * EROFS_DIRENT_SIZE]
          == front[i * EROFS_DIRENT_SIZE..(i + 1) * EROFS_DIRENT_SIZE];
    }
  }

  lemma {:induction false} NameIs(es: seq<DirEntry>, i: nat)
    requires i < |es|
    ensures NamesLen(es[..i]) + |es[i].name| == NamesLen(es[..i + 1]) <= NamesLen(es)
    ensures Names(es)[NamesLen(es[..i])..NamesLen(es[..i + 1])] == es[i].name
    decreases |es|
  {
    hide Names, NamesLen;
    var n := |es| - 1;
    var front, last := Names(es[..n]), es[n].name;
    NamesStep(es);
    if i < n {
      assert es[..n][..i] == es[..i] && es[..n][..i + 1] == es[..i + 1];
      NameIs(es[..n], i);
      SliceOfFront(front, last, NamesLen(es[..i]), NamesLen(es[..i + 1]));
    } else {
      assert es[..i + 1] == es;
      assert (front + last)[|front|..|front| + |last|] == last;
    }
  }

  lemma NamesStep(es: seq<DirEntry>)
    requires es != []
    ensures var n := |es| - 1;
            && Names(es) == Names(es[..n]) + es[n].name && NamesLen(es) == NamesLen(es[..n]) + |es[n].name|
            && |Names(es[..n])| == NamesLen(es[..n]) && |Names(es)| == NamesLen(es)
  {
  }

  lemma SliceOfFront(a: seq<byte>, b: seq<byte>, lo: nat, hi: nat)
    requires lo <= hi <= |a|
    ensures (a + b)[lo..hi] == a[lo..hi]
  {
  }

  /** Where the name of entry `i` starts. */
  function NameStart(es: seq<DirEntry>, i: nat): nat
    requires i <= |es|
  {
    |es| * EROFS_DIRENT_SIZE + NamesLen(es[..i])
  }

  lemma BlockParts(es: seq<DirEntry>, bs: nat, i: nat)
    requires FitsBlock(es, bs) && i < |es|
    ensures var block := BlockBytes(es, bs);
            && block[i * EROFS_DIRENT_SIZE..(i + 1) * EROFS_DIRENT_SIZE] == DirentBytes(es[i], NameStart(es, i))
            && NameStart(es, i) + |es[i].name| == NameStart(es, i + 1) <= bs
            && block[NameStart(es, i)..NameStart(es, i + 1)] == es[i].name
  {
    hide DirentBytes, Dirents, Names;
    var header := |es| * EROFS_DIRENT_SIZE;
    var d, names, rest := Dirents(es, header), Names(es), Zeros(bs - header - NamesLen(es));
    var a, b := NamesLen(es[..i]), NamesLen(es[..i + 1]);
    DirentIs(es, header, i);
    NameIs(es, i);
    assert (d + names + rest)[i * EROFS_DIRENT_SIZE..(i + 1) * EROFS_DIRENT_SIZE]
        == d[i * EROFS_DIRENT_SIZE..(i + 1) * EROFS_DIRENT_SIZE];
    assert (d + names + rest)[header + a..header + b] == names[a..b];
  }

  lemma DirentFields(block: seq<byte>, i: nat, e: DirEntry, nameoff: nat)
    requires (i + 1) * EROFS_DIRENT_SIZE <= |block| && e.nid < Pow2(64) && nameoff < 0x1_0000
    requires block[i * EROFS_DIRENT_SIZE..(i + 1) * EROFS_DIRENT_SIZE] == DirentBytes(e, nameoff)
    ensures var off := i * EROFS_DIRENT_SIZE;
            LE(block[off..off + 8]) == e.nid && NameOff(block, i) == nameoff && block[off + 10] == e.fileType
  {
    hide LE, ToLE, Pow2;
    var off := i * EROFS_DIRENT_SIZE;
    var d := DirentBytes(e, nameoff);
    assert d[0..8] == ToLE(e.nid, 8) && d[8..10] == ToLE(nameoff, 2) && d[10] == e.fileType;
    SliceSlice(block, off, off + EROFS_DIRENT_SIZE, 0, 8);
    SliceSlice(block, off, off + EROFS_DIRENT_SIZE, 8, 10);
    assert block[off + 10] == block[off..off + EROFS_DIRENT_SIZE][10];
    Pow2Of32();
    LEOfFitting(e.nid, 8);
    LEOfFitting(nameoff, 2);
  }

  lemma {:induction false} NulFound(block: seq<byte>, from: nat, upTo: nat)
    requires from <= upTo <= |block| && forall k :: from <= k < upTo ==> block[k] != 0
    requires upTo == |block| || block[upTo] == 0
    ensures NulOrEnd(block, from) == upTo
    decreases upTo - from
  {
    if from < upTo { NulFound(block, from + 1, upTo); }
  }

  lemma NameNotEmpty(es: seq<DirEntry>, i: nat)
    requires Writable(es) && i < |es|
    ensures ValidName(es[i].name) && es[i].name != [] && es[i].nid < Pow2(64)
  {
    hide Pow2;
    assert WritableEntry(es[i]);
  }

  lemma NameOffIs(es: seq<DirEntry>, bs: nat, i: nat)
    requires FitsBlock(es, bs) && bs <= 0x1_0000 && Writable(es) && i < |es|
    ensures NameOff(BlockBytes(es, bs), i) == NameStart(es, i) < bs
    ensures var off := i * EROFS_DIRENT_SIZE;
            LE(BlockBytes(es, bs)[off..off + 8]) == es[i].nid && BlockBytes(es, bs)[off + 10] == es[i].fileType
  {
    hide LE, BlockBytes, DirentBytes, NameStart, ValidName, NameOff, Pow2;
    BlockParts(es, bs, i);
    NameNotEmpty(es, i);
    DirentFields(BlockBytes(es, bs), i, es[i], NameStart(es, i));
  }

  lemma LastNameEnds(es: seq<DirEntry>, bs: nat)
    requires FitsBlock(es, bs) && Writable(es) && es != []
    ensures NameStart(es, |es| - 1) <= bs
    ensures NulOrEnd(BlockBytes(es, bs), NameStart(es, |es| - 1)) == NameStart(es, |es|)
  {
    hide Dirents, Names;
    var i, block := |es| - 1, BlockBytes(es, bs);
    BlockParts(es, bs, i);
    NameNotEmpty(es, i);
    assert es[..|es|] == es;
    var from, upTo := NameStart(es, i), NameStart(es, i + 1);
    forall k | from <= k < upTo
      ensures block[k] != 0
    {
      assert block[k] == block[from..upTo][k - from];
      assert es[i].name[k - from] in es[i].name;
    }
    NulFound(block, from, upTo);
  }

  /** Each entry of a written block reads back. */
  lemma EntryReadsBack(es: seq<DirEntry>, bs: nat, i: nat)
    requires FitsBlock(es, bs) && bs <= 0x1_0000 && Writable(es) && i < |es|
    ensures DirentAt(BlockBytes(es, bs), |es|, i) == Ok(es[i])
  {
    hide LE, BlockBytes, DirentBytes, NamesLen, NameOff, ValidName, NulOrEnd;
    BlockParts(es, bs, i);
    NameOffIs(es, bs, i);
    NameNotEmpty(es, i);
    if i + 1 < |es| {
      NameOffIs(es, bs, i + 1);
    } else {
      LastNameEnds(es, bs);
    }
  }

  /** A written block lists its entries. */
  lemma BlockReadsBack(es: seq<DirEntry>, bs: nat)
    requires FitsBlock(es, bs) && bs <= 0x1_0000 && Writable(es) && es != []
    ensures IterBlock(BlockBytes(es, bs)) == Ok(es)
  {
    hide LE, BlockBytes, DirentAt, NamesLen, DirentsFrom;
    CountReadsBack(es, bs);
    TailReadsBack(es, bs, 0);
    assert es[0..] == es;
  }

  lemma CountReadsBack(es: seq<DirEntry>, bs: nat)
    requires FitsBlock(es, bs) && bs <= 0x1_0000 && Writable(es) && es != []
    ensures DirentCount(BlockBytes(es, bs)) == Ok(|es|)
  {
    hide LE, BlockBytes;
    NameOffIs(es, bs, 0);
    assert es[..0] == [];
    assert BlockBytes(es, bs)[0 * EROFS_DIRENT_SIZE + 8..0 * EROFS_DIRENT_SIZE + 10] == BlockBytes(es, bs)[8..10];
  }

  lemma {:induction false} TailReadsBack(es: seq<DirEntry>, bs: nat, i: nat)
    requires FitsBlock(es, bs) && bs <= 0x1_0000 && Writable(es) && i <= |es|
    ensures DirentsFrom(BlockBytes(es, bs), |es|, i) == Ok(es[i..])
    decreases |es| - i
  {
    hide BlockBytes, DirentAt, NamesLen;
    if i < |es| {
      EntryReadsBack(es, bs, i);
      TailReadsBack(es, bs, i + 1);
      assert es[i..] == [es[i]] + es[i + 1..];
    } else {
      assert es[i..] == [];
    }
  }

  // ----- Sorting

  /** Byte-wise order, a prefix before its extensions. */
  predicate NameLe(a: seq<byte>, b: seq<byte>) {
    a == [] || (b != [] && (a[0] < b[0] || (a[0] == b[0] && NameLe(a[1..], b[1..]))))
  }

  lemma {:induction false} NameLeTotal(a: seq<byte>, b: seq<byte>)
    ensures NameLe(a, b) || NameLe(b, a)
    ensures NameLe(a, b) && NameLe(b, a) ==> a == b
    decreases |a|
  {
    if a != [] && b != [] && a[0] == b[0] {
      NameLeTotal(a[1..], b[1..]);
      assert a == [a[0]] + a[1..] && b == [b[0]] + b[1..];
    }
  }

  lemma {:induction false} NameLeTransitive(a: seq<byte>, b: seq<byte>, c: seq<byte>)
    requires NameLe(a, b) && NameLe(b, c)
    ensures NameLe(a, c)
    decreases |a|
  {
    if a != [] && b != [] && c != [] && a[0] == b[0] == c[0] {
      NameLeTransitive(a[1..], b[1..], c[1..]);
    }
  }

  ghost predicate SortedByName(es: seq<DirEntry>) {
    forall i, j :: 0 <= i < j < |es| ==> NameLe(es[i].name, es[j].name)
  }

  /** Behind every entry whose name is not greater, which keeps equal names in order. */
  function InsertByName(es: seq<DirEntry>, e: DirEntry): seq<DirEntry> {
    if es == [] || NameLe(es[|es| - 1].name, e.name) then es + [e]
    else InsertByName(es[..|es| - 1], e) + [es[|es| - 1]]
  }

  /** The stable sort of `encode_dir_blocks`. */
  function SortByName(es: seq<DirEntry>): seq<DirEntry> {
    if es == [] then [] else InsertByName(SortByName(es[..|es| - 1]), es[|es| - 1])
  }

  lemma {:induction false} InsertIsSorted(es: seq<DirEntry>, e: DirEntry)
    requires SortedByName(es)
    ensures SortedByName(InsertByName(es, e))
    ensures multiset(InsertByName(es, e)) == multiset(es) + multiset{e}
    decreases |es|
  {
    hide NameLe;
    if es == [] {
    } else if NameLe(es[|es| - 1].name, e.name) {
      forall i | 0 <= i < |es|
        ensures NameLe(es[i].name, e.name)
      {
        if i < |es| - 1 { NameLeTransitive(es[i].name, es[|es| - 1].name, e.name); }
      }
    } else {
      var front, last := es[..|es| - 1], es[|es| - 1];
      assert es == front + [last];
      InsertIsSorted(front, e);
      NameLeTotal(last.name, e.name);
      var placed := InsertByName(front, e);
      forall i | 0 <= i < |placed|
        ensures NameLe(placed[i].name, last.name)
      {
        assert placed[i] in multiset(placed);
        assert placed[i] in front || placed[i] == e;
      }
    }
  }

  /** The sort orders the entries and loses none of them. */
  lemma {:induction false} SortIsSorted(es: seq<DirEntry>)
    ensures SortedByName(SortByName(es)) && multiset(SortByName(es)) == multiset(es)
    decreases |es|
  {
    if es != [] {
      var front, last := es[..|es| - 1], es[|es| - 1];
      assert es == front + [last];
      SortIsSorted(front);
      InsertIsSorted(SortByName(front), last);
    }
  }

  ghost predicate DistinctNames(es: seq<DirEntry>) {
    forall i, j :: 0 <= i < j < |es| ==> es[i].name != es[j].name
  }

  lemma {:induction false} InsertKeepsDistinct(es: seq<DirEntry>, e: DirEntry)
    requires DistinctNames(es) && forall i :: 0 <= i < |es| ==> es[i].name != e.name
    ensures DistinctNames(InsertByName(es, e))
    ensures forall x :: x in InsertByName(es, e) <==> x == e || x in es
    decreases |es|
  {
    hide NameLe;
    if es != [] && !NameLe(es[|es| - 1].name, e.name) {
      var front, last := es[..|es| - 1], es[|es| - 1];
      assert es == front + [last];
      InsertKeepsDistinct(front, e);
      var placed := InsertByName(front, e);
      forall i | 0 <= i < |placed|
        ensures placed[i].name != last.name
      {
        assert placed[i] in placed;
      }
    }
  }

  /** Distinct names stay distinct, so their order is strict. */
  lemma {:induction false} SortKeepsDistinct(es: seq<DirEntry>)
    requires DistinctNames(es)
    ensures DistinctNames(SortByName(es)) && forall x :: x in SortByName(es) <==> x in es
    decreases |es|
  {
    if es != [] {
      var front, last := es[..|es| - 1], es[|es| - 1];
      assert es == front + [last];
      SortKeepsDistinct(front);
      var sorted := SortByName(front);
      forall i | 0 <= i < |sorted|
        ensures sorted[i].name != last.name
      {
        assert sorted[i] in sorted;
      }
      InsertKeepsDistinct(sorted, last);
    }
  }

  // ----- Packing

  /** The dot entries, then the children in byte order. */
  function AllEntries(nid: nat, parentNid: nat, children: seq<DirEntry>): seq<DirEntry> {
    [DirEntry(nid, FT_DIR, [DOT]), DirEntry(parentNid, FT_DIR, [DOT, DOT])] + SortByName(children)
  }

  function Concat(groups: seq<seq<DirEntry>>): seq<DirEntry> {
    if groups == [] then [] else Concat(groups[..|groups| - 1]) + groups[|groups| - 1]
  }

  /** Block `k` has no room for the entry that opens the next block. */
  ghost predicate IsFull(groups: seq<seq<DirEntry>>, k: nat, bs: nat) {
    k + 1 < |groups| && groups[k + 1] != [] && !FitsBlock(groups[k] + [groups[k + 1][0]], bs)
  }

  /** The groups are blocks' worth of `es`, and no block has room for the entry behind it. */
  ghost predicate IsPacking(groups: seq<seq<DirEntry>>, es: seq<DirEntry>, bs: nat) {
    && Concat(groups) == es
    && (forall k :: 0 <= k < |groups| ==> groups[k] != [] && FitsBlock(groups[k], bs))
    && (forall k :: 0 <= k < |groups| - 1 ==> IsFull(groups, k, bs))
  }

  /** An entry no block can hold. */
  ghost predicate TooLarge(es: seq<DirEntry>, bs: nat) {
    exists i :: 0 <= i < |es| && !FitsBlock([es[i]], bs)
  }

  lemma FitsStep(es: seq<DirEntry>, from: nat, upTo: nat, bs: nat)
    requires from <= upTo < |es|
    ensures es[from..upTo] + [es[upTo]] == es[from..upTo + 1]
    ensures NamesLen(es[from..upTo + 1]) == NamesLen(es[from..upTo]) + |es[upTo].name|
  {
    assert es[from..upTo + 1][..upTo - from] == es[from..upTo];
  }

  /** How far the block that starts at entry `start` reaches. */
  method FillBlock(es: seq<DirEntry>, start: nat, bs: nat) returns (end: nat)
    requires start < |es|
    ensures start <= end <= |es|
    ensures end == start ==> !FitsBlock([es[start]], bs)
    ensures FitsBlock(es[start..end], bs) || end == start
    ensures end < |es| ==> !FitsBlock(es[start..end] + [es[end]], bs)
  {
    hide NamesLen;
    end := start;
    var header, names := 0, 0;
    assert NamesLen(es[start..start]) == 0 by { NoNames(es[start..start]); }
    while end < |es|
      invariant start <= end <= |es| && header == (end - start) * EROFS_DIRENT_SIZE && names == NamesLen(es[start..end])
      invariant end > start ==> FitsBlock(es[start..end], bs)
    {
      var nh, nn := header + EROFS_DIRENT_SIZE, names + |es[end].name|;
      FitsStep(es, start, end, bs);
      if nh + nn > bs {
        assert es[start..start + 1] == [es[start]];
        return;
      }
      header, names, end := nh, nn, end + 1;
    }
  }

  lemma NoNames(none: seq<DirEntry>)
    requires none == []
    ensures NamesLen(none) == 0
  {
  }

  /** The blocks so far hold the first `start` entries, and the last one has no room for the next. */
  ghost predicate PackedTo(groups: seq<seq<DirEntry>>, out: seq<seq<byte>>, es: seq<DirEntry>, start: nat, bs: nat) {
    && start <= |es| && |out| == |groups| && Concat(groups) == es[..start]
    && (forall k :: 0 <= k < |groups| ==> groups[k] != [] && FitsBlock(groups[k], bs) && out[k] == BlockBytes(groups[k], bs))
    && (forall k :: 0 <= k < |groups| - 1 ==> IsFull(groups, k, bs))
    && (groups != [] && start < |es| ==> !FitsBlock(groups[|groups| - 1] + [es[start]], bs))
    && !TooLarge(es[..start], bs)
  }

  lemma NothingPacked(es: seq<DirEntry>, bs: nat)
    ensures PackedTo([], [], es, 0, bs)
  {
  }

  lemma PackStep(groups: seq<seq<DirEntry>>, out: seq<seq<byte>>, es: seq<DirEntry>, start: nat, end: nat, block: seq<byte>, bs: nat)
    requires PackedTo(groups, out, es, start, bs) && start < end <= |es|
    requires FitsBlock(es[start..end], bs) && block == BlockBytes(es[start..end], bs)
    requires end < |es| ==> !FitsBlock(es[start..end] + [es[end]], bs)
    ensures PackedTo(groups + [es[start..end]], out + [block], es, end, bs)
  {
    hide BlockBytes, FitsBlock, TooLarge;
    var more := groups + [es[start..end]];
    NoneTooLarge(es, start, end, bs);
    assert more[..|more| - 1] == groups;
    assert es[..start] + es[start..end] == es[..end];
    forall k | 0 <= k < |more| - 1
      ensures IsFull(more, k, bs)
    {
      assert k < |groups| - 1 ==> IsFull(groups, k, bs);
    }
  }

  lemma AllPacked(groups: seq<seq<DirEntry>>, out: seq<seq<byte>>, es: seq<DirEntry>, bs: nat)
    requires PackedTo(groups, out, es, |es|, bs)
    ensures IsPacking(groups, es, bs) && |out| == |groups| && !TooLarge(es, bs)
    ensures forall k :: 0 <= k < |groups| ==> FitsBlock(groups[k], bs) && out[k] == BlockBytes(groups[k], bs)
  {
    hide BlockBytes, FitsBlock, TooLarge, IsFull;
    assert es[..|es|] == es;
  }

  lemma LoneEntryTooLarge(es: seq<DirEntry>, i: nat, bs: nat)
    requires i < |es| && !FitsBlock([es[i]], bs)
    ensures TooLarge(es, bs)
  {
  }

  /** `encode_dir_blocks`. `groups` says which entries went into which block. */
  method EncodeDirBlocks(nid: nat, parentNid: nat, children: seq<DirEntry>, bs: nat)
    returns (r: Result<seq<seq<byte>>>, ghost groups: seq<seq<DirEntry>>)
    ensures r.Err? <==> TooLarge(AllEntries(nid, parentNid, children), bs)
    ensures r.Ok? ==>
              && IsPacking(groups, AllEntries(nid, parentNid, children), bs) && |r.value| == |groups|
              && forall k :: 0 <= k < |groups| ==> FitsBlock(groups[k], bs) && r.value[k] == BlockBytes(groups[k], bs)
  {
    hide BlockBytes, FitsBlock, SortByName, PackedTo, IsPacking, TooLarge;
    var es := AllEntries(nid, parentNid, children);
    var out: seq<seq<byte>>, start: nat := [], 0;
    groups := [];
    NothingPacked(es, bs);
    while start < |es|
      invariant start <= |es| && PackedTo(groups, out, es, start, bs)
    {
      var end := FillBlock(es, start, bs);
      if end == start {
        LoneEntryTooLarge(es, start, bs);
        return Err, groups;
      }
      var block := EncodeOneDirBlock(es[start..end], bs);
      PackStep(groups, out, es, start, end, block.value[..], bs);
      out := out + [block.value[..]];
      groups := groups + [es[start..end]];
      start := end;
    }
    AllPacked(groups, out, es, bs);
    return Ok(out), groups;
  }

  lemma {:induction false} PartFits(es: seq<DirEntry>, i: nat, bs: nat)
    requires FitsBlock(es, bs) && i < |es|
    ensures FitsBlock([es[i]], bs)
  {
    NameIs(es, i);
    assert [es[i]][..0] == [];
  }

  lemma NoneTooLarge(es: seq<DirEntry>, start: nat, end: nat, bs: nat)
    requires start <= end <= |es| && FitsBlock(es[start..end], bs) && !TooLarge(es[..start], bs)
    ensures !TooLarge(es[..end], bs)
  {
    hide FitsBlock;
    forall i | 0 <= i < end
      ensures FitsBlock([es[..end][i]], bs)
    {
      if i < start {
        assert es[..start][i] == es[i];
      } else {
        PartFits(es[start..end], i - start, bs);
      }
    }
  }

  // ----- Listing and lookup

  /** The blocks of a directory, listed one after another. */
  function IterAll(blocks: seq<seq<byte>>): Result<seq<DirEntry>> {
    if blocks == [] then Ok([])
    else
      var first :- IterBlock(blocks[0]);
      var rest :- IterAll(blocks[1..]);
      Ok(first + rest)
  }

  lemma {:induction false} ConcatFront(groups: seq<seq<DirEntry>>)
    requires groups != []
    ensures Concat(groups) == groups[0] + Concat(groups[1..])
    decreases |groups|
  {
    var n := |groups| - 1;
    if n == 0 {
      assert groups[..0] == [] && groups[1..] == [];
    } else {
      ConcatFront(groups[..n]);
      var middle := groups[1..][..n - 1];
      assert groups[..n][1..] == middle;
      assert (groups[0] + Concat(middle)) + groups[n] == groups[0] + (Concat(middle) + groups[n]);
    }
  }

  /** Blocks of any packing of writable entries list exactly those entries. */
  lemma {:induction false} PackingReadsBack(groups: seq<seq<DirEntry>>, blocks: seq<seq<byte>>, bs: nat)
    requires bs <= 0x1_0000 && |blocks| == |groups|
    requires forall k :: 0 <= k < |groups| ==>
               groups[k] != [] && FitsBlock(groups[k], bs) && Writable(groups[k]) && blocks[k] == BlockBytes(groups[k], bs)
    ensures IterAll(blocks) == Ok(Concat(groups))
    decreases |groups|
  {
    hide BlockBytes, FitsBlock, Writable, IterBlock, Concat;
    if groups == [] {
      assert Concat(groups) == [] by { ConcatNone(groups); }
    } else {
      BlockReadsBack(groups[0], bs);
      PackingReadsBack(groups[1..], blocks[1..], bs);
      ConcatFront(groups);
    }
  }

  lemma ConcatNone(none: seq<seq<DirEntry>>)
    requires none == []
    ensures Concat(none) == []
  {
  }

  lemma {:induction false} GroupsWritable(groups: seq<seq<DirEntry>>, k: nat)
    requires Writable(Concat(groups)) && k < |groups|
    ensures Writable(groups[k])
    decreases |groups|
  {
    hide WritableEntry;
    var n := |groups| - 1;
    var front, last := Concat(groups[..n]), groups[n];
    forall i | 0 <= i < |front|
      ensures WritableEntry(front[i])
    {
      assert Concat(groups)[i] == front[i];
    }
    forall i | 0 <= i < |last|
      ensures WritableEntry(last[i])
    {
      assert Concat(groups)[|front| + i] == last[i];
    }
    if k < n {
      GroupsWritable(groups[..n], k);
    }
  }

  lemma SortKeepsWritable(children: seq<DirEntry>)
    requires Writable(children)
    ensures Writable(SortByName(children))
  {
    hide WritableEntry, SortByName;
    SortIsSorted(children);
    var sorted := SortByName(children);
    forall i | 0 <= i < |sorted|
      ensures WritableEntry(sorted[i])
    {
      assert sorted[i] in multiset(sorted);
      assert sorted[i] in children;
    }
  }

  lemma DotsWritable(nid: nat, parentNid: nat, children: seq<DirEntry>)
    requires nid < Pow2(64) && parentNid < Pow2(64) && Writable(children)
    ensures Writable(AllEntries(nid, parentNid, children))
  {
    hide SortByName, Pow2;
    SortKeepsWritable(children);
  }

  /**
   Directory round trip, for every block size up to 64 KiB: the blocks the writer emits
   list `.`, `..` and then all the children, each once, in byte order, which is strict when
   their names are distinct.
   */
  lemma DirectoryReadsBack(nid: nat, parentNid: nat, children: seq<DirEntry>, bs: nat,
                           groups: seq<seq<DirEntry>>, blocks: seq<seq<byte>>)
    requires bs <= 0x1_0000 && nid < Pow2(64) && parentNid < Pow2(64) && Writable(children)
    requires IsPacking(groups, AllEntries(nid, parentNid, children), bs) && |blocks| == |groups|
    requires forall k :: 0 <= k < |groups| ==> FitsBlock(groups[k], bs) && blocks[k] == BlockBytes(groups[k], bs)
    ensures var all := AllEntries(nid, parentNid, children);
            && IterAll(blocks) == Ok(all)
            && SortedByName(all[2..]) && multiset(all[2..]) == multiset(children)
            && (DistinctNames(children) ==> DistinctNames(all[2..]))
  {
    hide BlockBytes, FitsBlock, SortByName, Writable, Concat, IterAll, Pow2;
    DotsWritable(nid, parentNid, children);
    forall k | 0 <= k < |groups|
      ensures Writable(groups[k])
    {
      GroupsWritable(groups, k);
    }
    PackingReadsBack(groups, blocks, bs);
    SortIsSorted(children);
    if DistinctNames(children) { SortKeepsDistinct(children); }
    assert AllEntries(nid, parentNid, children)[2..] == SortByName(children);
  }
}
