/**
 The other index walker: `fragment_range` finds, from the end of the index, where the
 bytes that live in the packed inode begin.
 */
module FragmentWalk {
  import opened Basics
  import opened CompactPack
  import opened ZMapReader
  import opened ExtentMap

  /** Walk back over NONHEADs, however many, to a head. */
  function FragmentHead(idx: Index, cursor: nat): (r: Result<nat>)
    requires cursor < |idx|
    ensures r.Ok? ==> IsHeadAt(idx, r.value)
  {
    var e :- idx[cursor];
    if IsHeadOrPlain(e.ctype) then Ok(cursor)
    else if e.ctype != NONHEAD then Err
    else
      var d := Delta0(e);
      if d == 0 || d > cursor then Err else FragmentHead(idx, cursor - d)
  }

  /** Where the walk starts: one lcluster earlier when the last entry is only a sentinel. */
  function FragmentCursor(idx: Index, lcs: nat, size: nat): Result<nat>
    requires lcs > 0 && size > 0 && idx != []
  {
    var last := |idx| - 1;
    var e :- idx[last];
    if IsHeadOrPlain(e.ctype) && e.clusterofs > (size - 1) % lcs && last > 0 then Ok(last - 1) else Ok(last)
  }

  /** `work_out_fragment_range`: `(fragmentoff, start, end)`, or nothing to redirect. */
  function FragmentRange(z: ZMap, idx: Index): Result<Option<(nat, nat, nat)>>
    requires |idx| == z.NLclusters()
  {
    if !z.HasFragment() || z.size == 0 then Ok(None)
    else if z.HasFullFragment() then Ok(Some((z.unionWord, 0, z.size)))
    else
      DivCeilBounds(z.size, z.LclusterSize());
      var cursor :- FragmentCursor(idx, z.LclusterSize(), z.size);
      var h :- FragmentHead(idx, cursor);
      var start := StartOf(idx, z.LclusterSize(), h);
      if start >= z.size then Ok(None) else Ok(Some((z.unionWord, start, z.size)))
  }

  /** `work_out_fragment_range`, as the loop it is. */
  method WorkOutFragmentRange(dev: seq<byte>, z: ZMap) returns (r: Result<Option<(nat, nat, nat)>>)
    ensures r == FragmentRange(z, ReadIndex(dev, z))
  {
    hide ReadLcluster, DivCeil, ZMap.HasFragment, ZMap.HasFullFragment, ZMap.LclusterSize;
    if !z.HasFragment() || z.size == 0 {
      return Ok(None);
    }
    if z.HasFullFragment() {
      return Ok(Some((z.unionWord, 0, z.size)));
    }
    ghost var idx := ReadIndex(dev, z);
    var lcs, n := z.LclusterSize(), z.NLclusters();
    DivCeilBounds(z.size, lcs);
    var cursor := n - 1;
    var entry := ReadLcluster(dev, z, cursor);
    if entry.Err? {
      return Err;
    }
    if IsHeadOrPlain(entry.value.ctype) && entry.value.clusterofs > (z.size - 1) % lcs && cursor > 0 {
      cursor := cursor - 1;
      entry := ReadLcluster(dev, z, cursor);
      if entry.Err? {
        return Err;
      }
    }
    ghost var first := cursor;
    while !IsHeadOrPlain(entry.value.ctype)
      invariant 0 <= cursor < n && entry == idx[cursor] && entry.Ok?
      invariant FragmentHead(idx, cursor) == FragmentHead(idx, first)
      decreases cursor
    {
      if entry.value.ctype != NONHEAD {
        return Err;
      }
      var d := if entry.value.cblkcnt.Some? then 1 else entry.value.uRaw % 0x1_0000;
      if d == 0 || d > cursor {
        return Err;
      }
      cursor := cursor - d;
      entry := ReadLcluster(dev, z, cursor);
      if entry.Err? {
        return Err;
      }
    }
    var start := cursor * lcs + entry.value.clusterofs;
    if start >= z.size {
      return Ok(None);
    }
    return Ok(Some((z.unionWord, start, z.size)));
  }

  /**
   The two walkers agree wherever the extent walk succeeds, well-formed index or not, as
   long as no head starts outside its lcluster: both end at the same head.
   */
  lemma WalkersAgree(idx: Index, lcs: nat, size: nat)
    requires lcs > 0 && size > 0 && |idx| == DivCeil(size, lcs) && BoundedIndex(idx, lcs)
    requires (size - 1) / lcs == |idx| - 1
    requires FindHead(idx, lcs, |idx| - 1, (size - 1) % lcs).Ok?
    ensures FragmentCursor(idx, lcs, size).Ok?
    ensures FragmentHead(idx, FragmentCursor(idx, lcs, size).value)
            == FindHead(idx, lcs, |idx| - 1, (size - 1) % lcs)
  {
    hide DivCeil;
  }

  lemma LastLcluster(size: nat, lcs: nat)
    requires lcs > 0 && size > 0
    ensures (size - 1) / lcs == DivCeil(size, lcs) - 1
  {
    DivCeilBounds(size, lcs);
    var q := DivCeil(size, lcs) - 1;
    MulStep(q, lcs);
    DivModUnique(size - 1, lcs, q, size - 1 - q * lcs);
  }

  /**
   On a well-formed partial-fragment index the fragment is exactly what the owner of the
   file's last byte covers, sentinel or not: it starts where that head starts and runs to
   the end of the file.
   */
  lemma FragmentIsLastExtent(z: ZMap, idx: Index) returns (h: nat)
    requires |idx| == z.NLclusters() && WfShape(idx, z.LclusterSize())
    requires z.HasFragment() && !z.HasFullFragment() && z.size > 0
    ensures IsHeadAt(idx, h) && Owns(idx, z.LclusterSize(), h, z.size - 1)
    ensures StartOf(idx, z.LclusterSize(), h) < z.size == TrueEnd(idx, z.LclusterSize(), z.size, h)
    ensures FragmentRange(z, idx) == Ok(Some((z.unionWord, StartOf(idx, z.LclusterSize(), h), z.size)))
  {
    hide DivCeil, ZMap.LclusterSize, ZMap.HasFragment, ZMap.HasFullFragment, FindHead, FragmentHead, FragmentCursor;
    hide StartOf;
    var lcs, size := z.LclusterSize(), z.size;
    LastLcluster(size, lcs);
    LclusterInside(size, lcs, size - 1);
    WalkFindsOwner(idx, lcs, size - 1);
    WalkersAgree(idx, lcs, size);
    h := FindHead(idx, lcs, |idx| - 1, (size - 1) % lcs).value;
    assert TrueEnd(idx, lcs, size, h) == size;
  }
}
