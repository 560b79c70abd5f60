/** Listing a directory, and looking one name up without listing it. */
module DirectoryRead {
  import opened Basics
  import opened Bits
  import opened Directory
  import opened DirectoryRoundTrip
  import opened Images
  import opened ReadPath
  import opened ZMapReader

  /** Block `k` of a directory, a short last block padded back to a whole one. */
  function DirBlock(img: Image, dir: Inode, zmap: Option<ZMap>, k: nat): (r: Result<seq<byte>>)
    requires k * img.BlockSize() < dir.size
  {
    var len := Min(dir.size - k * img.BlockSize(), img.BlockSize());
    var b :- ReadDataBlock(img, dir, zmap, k, len, 1);
    Ok(b + Zeros(img.BlockSize() - len))
  }

  /** The entries of blocks `k` and on. */
  function ListFrom(img: Image, dir: Inode, zmap: Option<ZMap>, k: nat): Result<seq<DirEntry>>
    decreases dir.size - k * img.BlockSize()
  {
    if k * img.BlockSize() >= dir.size then Ok([])
    else
      MulStep(k, img.BlockSize());
      var block :- DirBlock(img, dir, zmap, k);
      var es :- IterBlock(block);
      var rest :- ListFrom(img, dir, zmap, k + 1);
      Ok(es + rest)
  }

  /** `read_dir`. */
  function ListDir(img: Image, dir: Inode): Result<seq<DirEntry>> {
    var zmap :- img.ZMapFor(dir);
    ListFrom(img, dir, zmap, 0)
  }

  /** The first entry with that name. */
  function FirstMatch(es: seq<DirEntry>, name: seq<byte>): Option<nat> {
    if es == [] then None
    else if es[0].name == name then Some(es[0].nid)
    else FirstMatch(es[1..], name)
  }

  /** What a lookup means: the first match of the whole listing. */
  function LookupIn(img: Image, listing: Result<seq<DirEntry>>, name: seq<byte>): Result<Inode> {
    if listing.Err? then Err
    else match FirstMatch(listing.value, name) case Some(nid) => img.inodes(nid) case None => Err
  }

  lemma {:induction false} FirstMatchConcat(a: seq<DirEntry>, b: seq<DirEntry>, name: seq<byte>)
    ensures FirstMatch(a + b, name) == if FirstMatch(a, name).Some? then FirstMatch(a, name) else FirstMatch(b, name)
    decreases |a|
  {
    if a == [] {
      assert a + b == b;
    } else {
      assert (a + b)[1..] == a[1..] + b;
      FirstMatchConcat(a[1..], b, name);
    }
  }

  lemma ListStep(img: Image, dir: Inode, zmap: Option<ZMap>, k: nat)
    ensures ListFrom(img, dir, zmap, k)
            == if k * img.BlockSize() >= dir.size then Ok([])
               else
                 var block := DirBlock(img, dir, zmap, k);
                 if block.Err? || IterBlock(block.value).Err? then Err
                 else Prepend(IterBlock(block.value).value, ListFrom(img, dir, zmap, k + 1))
  {
    hide DirBlock, IterBlock, Image.BlockSize;
  }

  /** The loop of `read_dir`. */
  method ReadDir(img: Image, dir: Inode) returns (r: Result<seq<DirEntry>>)
    ensures r == ListDir(img, dir)
  {
    hide DirBlock, IterBlock, Image.BlockSize, Image.ZMapFor, ListFrom, Prepend;
    var zmap :- img.ZMapFor(dir);
    var out: seq<DirEntry>, block: nat := [], 0;
    var bs := img.BlockSize();
    PrependNone(ListFrom(img, dir, zmap, 0));
    while block * bs < dir.size
      invariant ListFrom(img, dir, zmap, 0) == Prepend(out, ListFrom(img, dir, zmap, block))
      decreases dir.size - block * bs
    {
      ListStep(img, dir, zmap, block);
      MulStep(block, bs);
      var buf := DirBlock(img, dir, zmap, block);
      if buf.Err? {
        PrependEnd(out);
        return Err;
      }
      var ok, entries := VisitBlock(buf.value);
      if !ok {
        PrependEnd(out);
        return Err;
      }
      PrependTwice(out, entries, ListFrom(img, dir, zmap, block + 1));
      out := out + entries;
      block := block + 1;
    }
    ListStep(img, dir, zmap, block);
    PrependEnd(out);
    return Ok(out);
  }

  /**
   `lookup`: the first match of the full listing, found without building it. Every block is
   still read and validated, so it fails wherever a listing fails.
   */
  method Lookup(img: Image, dir: Inode, name: seq<byte>) returns (r: Result<Inode>)
    ensures r == LookupIn(img, ListDir(img, dir), name)
  {
    hide DirBlock, IterBlock, Image.BlockSize, Image.ZMapFor, ListFrom, Prepend, FirstMatch;
    var zmap :- img.ZMapFor(dir);
    var found: Option<nat>, block: nat := None, 0;
    var bs := img.BlockSize();
    ghost var seen: seq<DirEntry> := [];
    NoMatch(seen, name);
    PrependNone(ListFrom(img, dir, zmap, 0));
    while block * bs < dir.size
      invariant found == FirstMatch(seen, name)
      invariant ListFrom(img, dir, zmap, 0) == Prepend(seen, ListFrom(img, dir, zmap, block))
      decreases dir.size - block * bs
    {
      ListStep(img, dir, zmap, block);
      MulStep(block, bs);
      var buf := DirBlock(img, dir, zmap, block);
      if buf.Err? {
        PrependEnd(seen);
        return Err;
      }
      var ok, entries := VisitBlock(buf.value);
      if !ok {
        PrependEnd(seen);
        return Err;
      }
      found := Match(entries, name, found);
      FirstMatchConcat(seen, entries, name);
      PrependTwice(seen, entries, ListFrom(img, dir, zmap, block + 1));
      seen := seen + entries;
      block := block + 1;
    }
    ListStep(img, dir, zmap, block);
    PrependEnd(seen);
    return match found case Some(nid) => img.inodes(nid) case None => Err;
  }

  lemma NoMatch(none: seq<DirEntry>, name: seq<byte>)
    requires none == []
    ensures FirstMatch(none, name) == None
  {
  }

  /** The callback of `lookup`, over the entries of one block. */
  method Match(entries: seq<DirEntry>, name: seq<byte>, before: Option<nat>) returns (found: Option<nat>)
    ensures found == if before.Some? then before else FirstMatch(entries, name)
  {
    found := before;
    for i := 0 to |entries|
      invariant (if found.Some? then found else FirstMatch(entries[i..], name))
                == if before.Some? then before else FirstMatch(entries, name)
    {
      assert entries[i..][1..] == entries[i + 1..];
      if found.None? && entries[i].name == name {
        found := Some(entries[i].nid);
      }
    }
    assert entries[|entries|..] == [];
  }

  // ----- A written directory

  lemma {:induction false} FirstMatchOf(es: seq<DirEntry>, i: nat)
    requires DistinctNames(es) && i < |es|
    ensures FirstMatch(es, es[i].name) == Some(es[i].nid)
    decreases |es|
  {
    if i > 0 {
      assert es[0].name != es[i].name;
      assert forall a, b :: 0 <= a < b < |es[1..]| ==> es[1..][a].name != es[1..][b].name;
      FirstMatchOf(es[1..], i - 1);
    }
  }

  lemma {:induction false} NoFirstMatch(es: seq<DirEntry>, name: seq<byte>)
    requires forall i :: 0 <= i < |es| ==> es[i].name != name
    ensures FirstMatch(es, name) == None
    decreases |es|
  {
    if es != [] {
      assert forall i :: 0 <= i < |es[1..]| ==> es[1..][i].name != name;
      NoFirstMatch(es[1..], name);
    }
  }

  /** The written blocks lie where the directory's inode says. */
  ghost predicate BlocksAtInode(img: Image, dir: Inode, blocks: seq<seq<byte>>) {
    && dir.layout == FlatPlain && dir.size == |blocks| * img.BlockSize()
    && forall k :: 0 <= k < |blocks| ==> img.Read(0, dir.rawU * img.BlockSize() + k * img.BlockSize(), img.BlockSize()) == Ok(blocks[k])
  }

  lemma DirBlockIs(img: Image, dir: Inode, blocks: seq<seq<byte>>, k: nat)
    requires BlocksAtInode(img, dir, blocks) && k < |blocks|
    ensures k * img.BlockSize() < dir.size && DirBlock(img, dir, None, k) == Ok(blocks[k])
  {
    hide Image.BlockSize, Image.Read;
    var bs := img.BlockSize();
    MulStep(k, bs);
    MulMono(k + 1, |blocks|, bs);
    assert blocks[k] + Zeros(0) == blocks[k];
  }

  lemma {:induction false} ListFromIs(img: Image, dir: Inode, blocks: seq<seq<byte>>, k: nat)
    requires BlocksAtInode(img, dir, blocks) && k <= |blocks|
    ensures ListFrom(img, dir, None, k) == IterAll(blocks[k..])
    decreases |blocks| - k
  {
    hide DirBlock, IterBlock, Image.BlockSize, BlocksAtInode, ListFrom;
    ListStep(img, dir, None, k);
    if k < |blocks| {
      DirBlockIs(img, dir, blocks, k);
      ListFromIs(img, dir, blocks, k + 1);
      assert blocks[k..][1..] == blocks[k + 1..];
    } else {
      AllListed(img, dir, blocks);
      assert blocks[k..] == [];
    }
  }

  lemma AllListed(img: Image, dir: Inode, blocks: seq<seq<byte>>)
    requires BlocksAtInode(img, dir, blocks)
    ensures |blocks| * img.BlockSize() >= dir.size
  {
  }

  /**
   A written directory resolves its children and nothing else: each child's name to the
   child's inode, any other name but the dots to a failure.
   */
  lemma WrittenDirectoryResolves(img: Image, dir: Inode, nid: nat, parentNid: nat, children: seq<DirEntry>,
                                 groups: seq<seq<DirEntry>>, blocks: seq<seq<byte>>, name: seq<byte>)
    requires BlocksAtInode(img, dir, blocks) && img.BlockSize() <= 0x1_0000
    requires nid < Pow2(64) && parentNid < Pow2(64) && Writable(children) && DistinctNames(children)
    requires IsPacking(groups, AllEntries(nid, parentNid, children), img.BlockSize()) && |blocks| == |groups|
    requires forall k :: 0 <= k < |groups| ==> FitsBlock(groups[k], img.BlockSize()) && blocks[k] == BlockBytes(groups[k], img.BlockSize())
    requires name != [DOT] && name != [DOT, DOT]
    ensures ListDir(img, dir) == Ok(AllEntries(nid, parentNid, children))
    ensures forall i :: 0 <= i < |children| && children[i].name == name ==>
              LookupIn(img, ListDir(img, dir), name) == img.inodes(children[i].nid)
    ensures (forall i :: 0 <= i < |children| ==> children[i].name != name) ==> LookupIn(img, ListDir(img, dir), name) == Err
  {
    hide Image.BlockSize, BlocksAtInode, IterAll, SortByName, ListFrom, IsPacking, Writable, BlockBytes, FitsBlock, FirstMatch, Pow2, DistinctNames;
    NoMapFor(img, dir, blocks);
    ListFromIs(img, dir, blocks, 0);
    assert blocks[0..] == blocks;
    DirectoryReadsBack(nid, parentNid, children, img.BlockSize(), groups, blocks);
    SortKeepsDistinct(children);
    var sorted := SortByName(children);
    SkipDots(nid, parentNid, children, name);
    forall i | 0 <= i < |children| && children[i].name == name
      ensures FirstMatch(sorted, name) == Some(children[i].nid)
    {
      assert children[i] in sorted;
      var j :| 0 <= j < |sorted| && sorted[j] == children[i];
      FirstMatchOf(sorted, j);
    }
    if forall i :: 0 <= i < |children| ==> children[i].name != name {
      forall j | 0 <= j < |sorted|
        ensures sorted[j].name != name
      {
        assert sorted[j] in children;
      }
      NoFirstMatch(sorted, name);
    }
  }

  lemma NoMapFor(img: Image, dir: Inode, blocks: seq<seq<byte>>)
    requires BlocksAtInode(img, dir, blocks)
    ensures img.ZMapFor(dir) == Ok(None)
  {
  }

  lemma SkipDots(nid: nat, parentNid: nat, children: seq<DirEntry>, name: seq<byte>)
    requires name != [DOT] && name != [DOT, DOT]
    ensures FirstMatch(AllEntries(nid, parentNid, children), name) == FirstMatch(SortByName(children), name)
  {
    var all := AllEntries(nid, parentNid, children);
    assert all[1..][1..] == SortByName(children);
  }
}
