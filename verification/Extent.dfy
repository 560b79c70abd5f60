/**
 From a byte offset to the physical cluster that owns it. `idx` is the index as
 `read_lcluster` yields it, entry by entry; `lcs` is the lcluster size.
 */
module ExtentMap {
  import opened Basics
  import opened CompactPack
  import opened CompactRoundTrip
  import opened ZMapReader

  /** The most a physical cluster may decode to. */
  const MAX_PCLUSTER_SIZE: nat := 12 * 1024 * 1024

  datatype Extent = Extent(
    blkaddr: nat, blockCount: nat, start: nat, end: nat, ctype: nat,
    head: nat, isLast: bool, headClusterofs: nat, partialRef: bool)

  type Index = seq<Result<LEntry>>

  function Delta0(e: LEntry): nat {
    if e.cblkcnt.Some? then 1 else e.uRaw % 0x1_0000
  }

  // ----- The walk back to the head

  function FindHead(idx: Index, lcs: nat, i: nat, inLcluster: nat): (r: Result<nat>)
    requires i < |idx|
    ensures r.Ok? ==> r.value < |idx| && idx[r.value].Ok? && IsHeadOrPlain(idx[r.value].value.ctype)
    decreases i
  {
    var e :- idx[i];
    if IsHeadOrPlain(e.ctype) then
      if e.clusterofs <= inLcluster then Ok(i)
      else if i == 0 then Err
      else FindHead(idx, lcs, i - 1, lcs)
    else if e.ctype == NONHEAD then
      var d := Delta0(e);
      if d == 0 || d > i then Err
      else
        var h :- idx[i - d];
        if IsHeadOrPlain(h.ctype) then Ok(i - d) else Err
    else Err
  }

  /** First head in `[from, until)`, and the first block-count marker before it. */
  function Scan(idx: Index, from: nat, until: nat, cblkcnt: Option<nat>): (r: Result<(Option<nat>, Option<nat>)>)
    requires from <= until <= |idx|
    ensures r.Ok? && r.value.0.Some? ==>
              && from <= r.value.0.value < until
              && idx[r.value.0.value].Ok? && IsHeadOrPlain(idx[r.value.0.value].value.ctype)
    decreases until - from
  {
    if from == until then Ok((None, cblkcnt))
    else
      var e :- idx[from];
      if IsHeadOrPlain(e.ctype) then Ok((Some(from), cblkcnt))
      else Scan(idx, from + 1, until, if cblkcnt.None? then e.cblkcnt else cblkcnt)
  }

  /** How many lclusters past its head a pcluster is looked for. */
  function Reach(lcs: nat): nat
    requires lcs > 0
  {
    Max(MAX_PCLUSTER_SIZE / lcs, 1) + 1
  }

  function StartOf(idx: Index, lcs: nat, h: nat): nat
    requires h < |idx| && idx[h].Ok?
  {
    h * lcs + idx[h].value.clusterofs
  }

  /** Everything about the extent of head `h`, with the next head looked for in front of entry `until`. */
  function ExtentUpTo(idx: Index, lcs: nat, size: nat, h: nat, until: nat): Result<Extent>
    requires lcs > 0 && h < until <= |idx| && idx[h].Ok?
  {
    var e := idx[h].value;
    var scan :- Scan(idx, h + 1, until, None);
    var end := match scan.0 case Some(nh) => Min(StartOf(idx, lcs, nh), size) case None => size;
    if scan.1 == Some(0) then Err
    else Ok(Extent(e.uRaw, BlockCount(scan.1),
                   StartOf(idx, lcs, h), end, e.ctype, h, end >= size, e.clusterofs,
                   HasBit(e.adviseRaw, LI_PARTIAL_REF)))
  }

  /** The extent of head `h`, as the reader sees it: no further than a pcluster may reach. */
  function ExtentOfHead(idx: Index, lcs: nat, size: nat, h: nat): Result<Extent>
    requires lcs > 0 && h < |idx| && idx[h].Ok?
  {
    ExtentUpTo(idx, lcs, size, h, Min(h + 1 + Reach(lcs), |idx|))
  }

  /** The extent that owns byte `off`. */
  function ExtentAt(idx: Index, lcs: nat, size: nat, off: nat): Result<Extent>
    requires lcs > 0 && |idx| == DivCeil(size, lcs)
  {
    if off >= size then Err
    else
      LclusterInside(size, lcs, off);
      var h :- FindHead(idx, lcs, off / lcs, off % lcs);
      ExtentOfHead(idx, lcs, size, h)
  }

  lemma LclusterInside(size: nat, lcs: nat, off: nat)
    requires lcs > 0 && off < size
    ensures off / lcs < DivCeil(size, lcs)
    ensures off == off / lcs * lcs + off % lcs
  {
    DivCeilBounds(size, lcs);
    if off / lcs >= DivCeil(size, lcs) {
      MulMono(DivCeil(size, lcs), off / lcs, lcs);
    }
  }

  /** The walk back of `pcluster_extent`, through NONHEADs and over spilled-into heads. */
  method WalkBack(dev: seq<byte>, z: ZMap, from: nat, ofs: nat) returns (r: Result<(nat, LEntry)>)
    requires from < z.NLclusters()
    ensures var idx := ReadIndex(dev, z);
            match FindHead(idx, z.LclusterSize(), from, ofs)
            case Ok(h) => r.Ok? && r.value.0 == h && idx[h] == Ok(r.value.1)
            case Err => r == Err
  {
    hide ReadLcluster, DivCeil, ZMap.LclusterSize;
    var lcs := z.LclusterSize();
    ghost var idx := ReadIndex(dev, z);
    var i: nat, inLcluster: nat := from, ofs;
    while true
      invariant i < z.NLclusters()
      invariant FindHead(idx, lcs, i, inLcluster) == FindHead(idx, lcs, from, ofs)
      decreases i
    {
      var e := ReadLcluster(dev, z, i);
      if e.Err? {
        return Err;
      }
      if IsHeadOrPlain(e.value.ctype) {
        if e.value.clusterofs <= inLcluster {
          return Ok((i, e.value));
        }
        if i == 0 {
          return Err;
        }
        i := i - 1;
        inLcluster := lcs;
      } else if e.value.ctype == NONHEAD {
        var d := if e.value.cblkcnt.Some? then 1 else e.value.uRaw % 0x1_0000;
        if d == 0 || d > i {
          return Err;
        }
        var h := ReadLcluster(dev, z, i - d);
        if h.Err? || !IsHeadOrPlain(h.value.ctype) {
          return Err;
        }
        return Ok((i - d, h.value));
      } else {
        return Err;
      }
    }
  }

  /** The walk forward of `pcluster_extent`, as far as a pcluster can reach. */
  method WalkForward(dev: seq<byte>, z: ZMap, from: nat, scanEnd: nat)
    returns (r: Result<(Option<nat>, Option<nat>)>, next: Option<LEntry>)
    requires from <= scanEnd <= z.NLclusters()
    ensures r == Scan(ReadIndex(dev, z), from, scanEnd, None)
    ensures r.Ok? && r.value.0.Some? ==> next.Some? && ReadIndex(dev, z)[r.value.0.value] == Ok(next.value)
  {
    hide ReadLcluster, DivCeil, ZMap.LclusterSize;
    ghost var idx := ReadIndex(dev, z);
    var cblkcnt: Option<nat> := None;
    for j := from to scanEnd
      invariant Scan(idx, from, scanEnd, None) == Scan(idx, j, scanEnd, cblkcnt)
    {
      var e := ReadLcluster(dev, z, j);
      if e.Err? {
        return Err, None;
      }
      if IsHeadOrPlain(e.value.ctype) {
        return Ok((Some(j), cblkcnt)), Some(e.value);
      }
      if cblkcnt.None? {
        cblkcnt := e.value.cblkcnt;
      }
    }
    return Ok((None, cblkcnt)), None;
  }

  /** The count a pcluster's marker gives, or one block without a marker. */
  function BlockCount(cblkcnt: Option<nat>): nat {
    match cblkcnt case Some(b) => b case None => 1
  }

  /** `pcluster_extent`. */
  method PclusterExtent(dev: seq<byte>, z: ZMap, off: nat) returns (r: Result<Extent>)
    ensures r == ExtentAt(ReadIndex(dev, z), z.LclusterSize(), z.size, off)
  {
    hide ReadLcluster, DivCeil, HasBit, FindHead, Scan, ReadIndex, ExtentOfHead, ZMap.LclusterSize;
    if off >= z.size {
      return Err;
    }
    var lcs := z.LclusterSize();
    LclusterInside(z.size, lcs, off);
    var back := WalkBack(dev, z, off / lcs, off % lcs);
    if back.Err? {
      return Err;
    }
    r := ExtentFrom(dev, z, back.value.0, back.value.1);
  }

  /** The second half of `pcluster_extent`: everything about the head just found. */
  method ExtentFrom(dev: seq<byte>, z: ZMap, head: nat, headEntry: LEntry) returns (r: Result<Extent>)
    requires head < z.NLclusters() && ReadIndex(dev, z)[head] == Ok(headEntry)
    ensures r == ExtentOfHead(ReadIndex(dev, z), z.LclusterSize(), z.size, head)
  {
    hide ReadLcluster, DivCeil, HasBit, Scan, ReadIndex, BlockCount, ZMap.LclusterSize;
    var lcs := z.LclusterSize();
    var start := head * lcs + headEntry.clusterofs;
    var reach := Max(MAX_PCLUSTER_SIZE / lcs, 1) + 1;
    var forward, next := WalkForward(dev, z, head + 1, Min(head + 1 + reach, z.NLclusters()));
    if forward.Err? {
      return Err;
    }
    var end := z.size;
    if forward.value.0.Some? {
      end := Min(forward.value.0.value * lcs + next.value.clusterofs, z.size);
    }
    var cblkcnt := forward.value.1;
    if cblkcnt == Some(0) {
      return Err;
    }
    return Ok(Extent(headEntry.uRaw, BlockCount(cblkcnt), start, end, headEntry.ctype, head,
                     end >= z.size, headEntry.clusterofs, HasBit(headEntry.adviseRaw, LI_PARTIAL_REF)));
  }

  // ----- Well-formed indexes

  predicate IsHeadAt(idx: Index, i: nat) {
    i < |idx| && idx[i].Ok? && IsHeadOrPlain(idx[i].value.ctype)
  }

  /** A readable index whose heads start inside their own lcluster. */
  ghost predicate BoundedIndex(idx: Index, lcs: nat) {
    forall i :: 0 <= i < |idx| && idx[i].Ok? && IsHeadOrPlain(idx[i].value.ctype) ==>
      idx[i].value.clusterofs < lcs
  }

  /** A NONHEAD leads straight to a head, over NONHEADs only. */
  ghost predicate ExactDistance(idx: Index, i: nat, d: nat) {
    && 1 <= d <= i < |idx| && IsHeadAt(idx, i - d)
    && forall k :: i - d < k <= i ==> !IsHeadAt(idx, k)
  }

  /** Entry 0 is a head at offset 0, and every NONHEAD knows its distance. */
  ghost predicate WfShape(idx: Index, lcs: nat) {
    && (forall i :: 0 <= i < |idx| ==> idx[i].Ok? && (idx[i].value.ctype < 4))
    && BoundedIndex(idx, lcs)
    && (idx != [] ==> IsHeadAt(idx, 0) && idx[0].value.clusterofs == 0)
    && (forall i :: 0 <= i < |idx| && idx[i].value.ctype == NONHEAD ==>
          ExactDistance(idx, i, Delta0(idx[i].value)))
  }

  /** An index whose pclusters all have blocks of their own. */
  ghost predicate WfIndex(idx: Index, lcs: nat) {
    && WfShape(idx, lcs)
    && forall i :: 0 <= i < |idx| && idx[i].value.ctype == NONHEAD ==> idx[i].value.cblkcnt != Some(0)
  }

  /** The head that owns byte `off`: the last one that starts at or before it. */
  ghost predicate Owns(idx: Index, lcs: nat, h: nat, off: nat) {
    && IsHeadAt(idx, h) && StartOf(idx, lcs, h) <= off
    && forall k :: h < k < |idx| && IsHeadAt(idx, k) ==> off < StartOf(idx, lcs, k)
  }

  lemma StartBounds(idx: Index, lcs: nat, h: nat, i: nat)
    requires BoundedIndex(idx, lcs) && IsHeadAt(idx, h)
    ensures h < i ==> StartOf(idx, lcs, h) < i * lcs
    ensures i <= h ==> i * lcs <= StartOf(idx, lcs, h)
  {
    MulStep(h, lcs);
    if h < i {
      MulMono(h + 1, i, lcs);
    } else {
      MulMono(i, h, lcs);
    }
  }

  /** Heads start in the order of their lclusters. */
  lemma StartsOrdered(idx: Index, lcs: nat, h: nat, k: nat)
    requires BoundedIndex(idx, lcs) && IsHeadAt(idx, h) && IsHeadAt(idx, k) && h < k
    ensures StartOf(idx, lcs, h) < StartOf(idx, lcs, k)
  {
    StartBounds(idx, lcs, h, k);
    StartBounds(idx, lcs, k, k);
  }

  /** A head before lcluster `i` owns what the heads from `i` on do not. */
  lemma OwnsIfNoneBetween(idx: Index, lcs: nat, h: nat, i: nat, off: nat)
    requires BoundedIndex(idx, lcs) && IsHeadAt(idx, h) && i * lcs <= off < (i + 1) * lcs
    requires h <= i && StartOf(idx, lcs, h) <= off
    requires forall k :: h < k < i ==> !IsHeadAt(idx, k)
    requires h < i && IsHeadAt(idx, i) ==> off < StartOf(idx, lcs, i)
    ensures Owns(idx, lcs, h, off)
  {
    hide StartOf, BoundedIndex;
    forall k | h < k < |idx| && IsHeadAt(idx, k)
      ensures off < StartOf(idx, lcs, k)
    {
      if k > i {
        StartBounds(idx, lcs, k, i + 1);
      }
    }
  }

  /** The walk finds the owner, spill-back included. */
  lemma WalkFindsOwner(idx: Index, lcs: nat, off: nat)
    requires lcs > 0 && WfShape(idx, lcs) && off / lcs < |idx|
    ensures var r := FindHead(idx, lcs, off / lcs, off % lcs); r.Ok? && Owns(idx, lcs, r.value, off)
  {
    hide BoundedIndex, StartOf;
    var i, r := off / lcs, FindHead(idx, lcs, off / lcs, off % lcs);
    var e := idx[i].value;
    MulStep(i, lcs);
    assert off == i * lcs + off % lcs;
    if IsHeadAt(idx, i) {
      StartIs(idx, lcs, i);
      if e.clusterofs <= off % lcs {
        OwnsIfNoneBetween(idx, lcs, i, i, off);
      } else {
        var p := idx[i - 1].value;
        var h := if IsHeadAt(idx, i - 1) then i - 1 else i - 1 - Delta0(p);
        OffsetInside(idx, lcs, i - 1);
        StartBounds(idx, lcs, h, i);
        OwnsIfNoneBetween(idx, lcs, h, i, off);
      }
    } else {
      var h := i - Delta0(e);
      StartBounds(idx, lcs, h, i);
      OwnsIfNoneBetween(idx, lcs, h, i, off);
    }
  }

  lemma StartIs(idx: Index, lcs: nat, h: nat)
    requires IsHeadAt(idx, h)
    ensures StartOf(idx, lcs, h) == h * lcs + idx[h].value.clusterofs
  {
  }

  lemma OffsetInside(idx: Index, lcs: nat, h: nat)
    requires BoundedIndex(idx, lcs)
    ensures IsHeadAt(idx, h) ==> idx[h].value.clusterofs < lcs
  {
  }

  /** An offset has one owner. */
  lemma OwnerUnique(idx: Index, lcs: nat, h: nat, k: nat, off: nat)
    requires Owns(idx, lcs, h, off) && Owns(idx, lcs, k, off)
    ensures h == k
  {
  }

  // ----- Where an extent ends

  /** First head at or after `i`, or the end of the index. */
  function NextHead(idx: Index, i: nat): (n: nat)
    requires i <= |idx|
    ensures i <= n <= |idx| && (n < |idx| ==> IsHeadAt(idx, n))
    ensures forall k :: i <= k < n ==> !IsHeadAt(idx, k)
    decreases |idx| - i
  {
    if i == |idx| || IsHeadAt(idx, i) then i else NextHead(idx, i + 1)
  }

  /** Where the extent of head `h` really ends: an unbounded scan for the next head. */
  function TrueEnd(idx: Index, lcs: nat, size: nat, h: nat): nat
    requires h < |idx|
  {
    var nh := NextHead(idx, h + 1);
    if nh < |idx| then Min(StartOf(idx, lcs, nh), size) else size
  }

  /** The bounded scan sees the next head if it lies in range, and nothing otherwise. */
  lemma {:induction false} ScanFindsNext(idx: Index, from: nat, until: nat, c: Option<nat>)
    requires from <= until <= |idx| && c != Some(0)
    requires Scannable(idx)
    ensures var r := Scan(idx, from, until, c);
            && r.Ok? && r.value.1 != Some(0)
            && r.value.0 == if NextHead(idx, from) < until then Some(NextHead(idx, from)) else None
    decreases until - from
  {
    if from != until && !IsHeadAt(idx, from) {
      ScanFindsNext(idx, from + 1, until, if c.None? then idx[from].value.cblkcnt else c);
    }
  }

  /** An index that can be read throughout, with no pcluster of zero blocks. */
  ghost predicate Scannable(idx: Index) {
    forall i :: 0 <= i < |idx| ==> idx[i].Ok? && (!IsHeadAt(idx, i) ==> idx[i].value.cblkcnt != Some(0))
  }

  lemma WfIsScannable(idx: Index, lcs: nat)
    requires WfIndex(idx, lcs)
    ensures Scannable(idx) && BoundedIndex(idx, lcs)
  {
  }

  /** The head behind `h` is near enough for the scan, or there is none inside the file. */
  ghost predicate InReach(idx: Index, lcs: nat, size: nat, h: nat)
    requires lcs > 0 && h < |idx|
  {
    var nh := NextHead(idx, h + 1);
    nh < h + 1 + Reach(lcs) || nh == |idx| || StartOf(idx, lcs, nh) >= size
  }

  /**
   What the bound on the scan costs. It reports the true end exactly when the next head is
   in reach. Otherwise it reports the end of the file, and both that extent and the true one
   are longer than a pcluster may be. Index distances do not matter.
   */
  lemma BoundedScanIsEnough(idx: Index, lcs: nat, size: nat, h: nat)
    requires lcs > 0 && BoundedIndex(idx, lcs) && Scannable(idx) && |idx| == DivCeil(size, lcs) && IsHeadAt(idx, h)
    ensures var r := ExtentOfHead(idx, lcs, size, h);
            var trueEnd := TrueEnd(idx, lcs, size, h);
            && r.Ok? && r.value.start == StartOf(idx, lcs, h)
            && (r.value.end == trueEnd <==> InReach(idx, lcs, size, h))
            && (!InReach(idx, lcs, size, h) ==>
                  && r.value.end == size
                  && r.value.end - r.value.start > MAX_PCLUSTER_SIZE
                  && trueEnd - r.value.start > MAX_PCLUSTER_SIZE)
  {
    hide DivCeil, HasBit, NextHead, Scan;
    var nh, until := NextHead(idx, h + 1), Min(h + 1 + Reach(lcs), |idx|);
    ScanFindsNext(idx, h + 1, until, None);
    if until <= nh < |idx| {
      FarHeadIsFar(idx, lcs, size, h, nh);
    }
  }

  /** A next head beyond the reach of the scan bounds more bytes than a pcluster may have. */
  lemma FarHeadIsFar(idx: Index, lcs: nat, size: nat, h: nat, nh: nat)
    requires lcs > 0 && BoundedIndex(idx, lcs) && |idx| == DivCeil(size, lcs)
    requires IsHeadAt(idx, h) && IsHeadAt(idx, nh) && nh >= h + 1 + Reach(lcs)
    ensures Min(StartOf(idx, lcs, nh), size) - StartOf(idx, lcs, h) > MAX_PCLUSTER_SIZE
  {
    hide StartOf, BoundedIndex, DivCeil;
    DivCeilBounds(size, lcs);
    StartBounds(idx, lcs, h, h + 1);
    StartBounds(idx, lcs, nh, nh);
    MulMono(nh, |idx| - 1, lcs);
    FarApart(h + 1, nh, MAX_PCLUSTER_SIZE, lcs);
  }

  lemma FarApart(a: nat, b: nat, m: nat, d: nat)
    requires d > 0 && b >= a + m / d + 1
    ensures b * d - a * d > m
  {
    var q := m / d;
    MulMono(a + q + 1, b, d);
    assert (a + q + 1) * d == a * d + q * d + d;
    assert m == q * d + m % d;
  }

  // ----- The partition

  ghost predicate AllInReach(idx: Index, lcs: nat, size: nat)
    requires lcs > 0
  {
    forall h :: 0 <= h < |idx| && IsHeadAt(idx, h) ==> InReach(idx, lcs, size, h)
  }

  /** The owner of an offset ends behind it. */
  lemma OwnerEndsBehind(idx: Index, lcs: nat, size: nat, h: nat, off: nat)
    requires off < size && Owns(idx, lcs, h, off)
    ensures off < TrueEnd(idx, lcs, size, h)
  {
  }

  /** On any well-formed index every byte of the file has an extent, and lies in it. */
  lemma ExtentContains(idx: Index, lcs: nat, size: nat, off: nat)
    requires lcs > 0 && WfIndex(idx, lcs) && |idx| == DivCeil(size, lcs) && off < size
    ensures var r := ExtentAt(idx, lcs, size, off);
            && r.Ok? && r.value.start <= off < r.value.end <= size
            && Owns(idx, lcs, r.value.head, off)
            && r == ExtentOfHead(idx, lcs, size, r.value.head)
            && (r.value.end == TrueEnd(idx, lcs, size, r.value.head) <==> InReach(idx, lcs, size, r.value.head))
  {
    hide DivCeil, WfShape, WfIndex, Scan, FindHead, Reach, HasBit, TrueEnd, InReach;
    WfIsScannable(idx, lcs);
    assert WfShape(idx, lcs) by { ShapeOfWf(idx, lcs); }
    LclusterInside(size, lcs, off);
    WalkFindsOwner(idx, lcs, off);
    var h := FindHead(idx, lcs, off / lcs, off % lcs).value;
    BoundedScanIsEnough(idx, lcs, size, h);
    OwnerEndsBehind(idx, lcs, size, h, off);
  }

  lemma ShapeOfWf(idx: Index, lcs: nat)
    requires WfIndex(idx, lcs)
    ensures WfShape(idx, lcs)
  {
  }

  /** Bytes `off` and `other` have each one extent, the same one or disjoint ones. */
  ghost predicate Parted(idx: Index, lcs: nat, size: nat, off: nat, other: nat)
    requires lcs > 0 && |idx| == DivCeil(size, lcs)
  {
    && ExtentAt(idx, lcs, size, off).Ok? && ExtentAt(idx, lcs, size, other).Ok?
    && var a, b := ExtentAt(idx, lcs, size, off).value, ExtentAt(idx, lcs, size, other).value;
       && a.start <= off < a.end <= size
       && (a.start <= other < a.end <==> a == b)
       && (a != b ==> a.end <= b.start || b.end <= a.start)
  }

  lemma ReachedExtentsPart(idx: Index, lcs: nat, size: nat, off: nat, other: nat)
    requires lcs > 0 && WfIndex(idx, lcs) && |idx| == DivCeil(size, lcs) && AllInReach(idx, lcs, size)
    requires off < size && other < size
    ensures Parted(idx, lcs, size, off, other)
  {
    hide DivCeil, WfIndex, ExtentOfHead, ExtentAt, InReach;
    ExtentContains(idx, lcs, size, off);
    ExtentContains(idx, lcs, size, other);
    var a, b := ExtentAt(idx, lcs, size, off).value, ExtentAt(idx, lcs, size, other).value;
    if a.head < b.head {
      EndsBeforeNext(idx, lcs, size, a.head, b.head);
    } else if b.head < a.head {
      EndsBeforeNext(idx, lcs, size, b.head, a.head);
    }
    HeadStart(idx, lcs, size, a.head);
    HeadStart(idx, lcs, size, b.head);
  }

  /** A head owns the byte it starts at. */
  lemma OwnsItsStart(idx: Index, lcs: nat, h: nat)
    requires BoundedIndex(idx, lcs) && IsHeadAt(idx, h)
    ensures Owns(idx, lcs, h, StartOf(idx, lcs, h))
  {
    hide StartOf, BoundedIndex;
    forall k | h < k < |idx| && IsHeadAt(idx, k)
      ensures StartOf(idx, lcs, h) < StartOf(idx, lcs, k)
    {
      StartsOrdered(idx, lcs, h, k);
    }
  }

  /** The extent of a head whose next one is out of reach runs over that one's start. */
  lemma FarHeadOverlaps(idx: Index, lcs: nat, size: nat, h: nat)
    requires lcs > 0 && WfIndex(idx, lcs) && |idx| == DivCeil(size, lcs)
    requires IsHeadAt(idx, h) && !InReach(idx, lcs, size, h)
    ensures var nh := NextHead(idx, h + 1);
            && IsHeadAt(idx, nh) && StartOf(idx, lcs, h) < StartOf(idx, lcs, nh) < size
            && ExtentAt(idx, lcs, size, StartOf(idx, lcs, h)).Ok? && ExtentAt(idx, lcs, size, StartOf(idx, lcs, nh)).Ok?
            && var a, b := ExtentAt(idx, lcs, size, StartOf(idx, lcs, h)).value, ExtentAt(idx, lcs, size, StartOf(idx, lcs, nh)).value;
               a.head == h && b.head == nh && a.start == StartOf(idx, lcs, h) && a.end == size
  {
    hide DivCeil, WfIndex, StartOf, ExtentAt, ExtentOfHead, BoundedIndex, Reach;
    WfIsScannable(idx, lcs);
    var nh := NextHead(idx, h + 1);
    StartsOrdered(idx, lcs, h, nh);
    var off, other := StartOf(idx, lcs, h), StartOf(idx, lcs, nh);
    ExtentContains(idx, lcs, size, off);
    ExtentContains(idx, lcs, size, other);
    OwnsItsStart(idx, lcs, h);
    OwnsItsStart(idx, lcs, nh);
    OwnerUnique(idx, lcs, ExtentAt(idx, lcs, size, off).value.head, h, off);
    OwnerUnique(idx, lcs, ExtentAt(idx, lcs, size, other).value.head, nh, other);
    BoundedScanIsEnough(idx, lcs, size, h);
  }

  /**
   The extents partition the file exactly when every head's next one is in reach: every
   byte lies in its extent, every byte of that extent has the very same one, and so any two
   are equal or disjoint and together they are `[0, size)`.
   */
  lemma ExtentsPartition(idx: Index, lcs: nat, size: nat)
    requires lcs > 0 && WfIndex(idx, lcs) && |idx| == DivCeil(size, lcs)
    ensures (forall off: nat, other: nat :: off < size && other < size ==> Parted(idx, lcs, size, off, other))
            <==> AllInReach(idx, lcs, size)
  {
    hide DivCeil, WfIndex, ExtentAt, InReach, StartOf;
    if AllInReach(idx, lcs, size) {
      forall off: nat, other: nat | off < size && other < size
        ensures Parted(idx, lcs, size, off, other)
      {
        ReachedExtentsPart(idx, lcs, size, off, other);
      }
    } else {
      var h :| 0 <= h < |idx| && IsHeadAt(idx, h) && !InReach(idx, lcs, size, h);
      FarHeadOverlaps(idx, lcs, size, h);
      assert !Parted(idx, lcs, size, StartOf(idx, lcs, h), StartOf(idx, lcs, NextHead(idx, h + 1)));
    }
  }

  // ----- A head out of reach

  /** 4 KiB lclusters: one uncompressed head, 3073 lclusters behind it, and another head. */
  function FarIndex(blk: nat, next: nat): (idx: Index)
    ensures |idx| == 3075
  {
    seq(3075, i requires 0 <= i < 3075 =>
      if i == 0 then Ok(LEntry(PLAIN, PLAIN, 0, blk, None))
      else if i < 3074 then Ok(LEntry(NONHEAD, NONHEAD, 0, i, None))
      else Ok(LEntry(PLAIN, PLAIN, 100, next, None)))
  }

  lemma FarIndexIsWf(blk: nat, next: nat)
    ensures WfIndex(FarIndex(blk, next), 4096) && NextHead(FarIndex(blk, next), 1) == 3074
    ensures 3075 == DivCeil(3075 * 4096, 4096) && Reach(4096) == 3073
  {
    var idx := FarIndex(blk, next);
    assert IsHeadAt(idx, 0) && IsHeadAt(idx, 3074);
  }

  /** On a well-formed index the second head is out of reach, and its bytes lie in two extents. */
  lemma FarHeadIsMissed(blk: nat, next: nat)
    ensures var idx, size := FarIndex(blk, next), 3075 * 4096;
            && WfIndex(idx, 4096) && |idx| == DivCeil(size, 4096) && !InReach(idx, 4096, size, 0)
            && var a, b := ExtentAt(idx, 4096, size, 3074 * 4096), ExtentAt(idx, 4096, size, 3074 * 4096 + 100);
               && a.Ok? && a.value.head == 0 && a.value.start == 0 && a.value.end == size
               && b.Ok? && b.value.head == 3074 && b.value.start == 3074 * 4096 + 100 && b.value.end == size
  {
    hide WfIndex, ExtentAt, NextHead, DivCeil, Reach, ExtentOfHead;
    var idx, size := FarIndex(blk, next), 3075 * 4096;
    FarIndexIsWf(blk, next);
    WfIsScannable(idx, 4096);
    FarHeadOverlaps(idx, 4096, size, 0);
    ExtentContains(idx, 4096, size, 3074 * 4096);
    ExtentContains(idx, 4096, size, 3074 * 4096 + 100);
    BoundedScanIsEnough(idx, 4096, size, 0);
    BoundedScanIsEnough(idx, 4096, size, 3074);
    assert ExtentAt(idx, 4096, size, 3074 * 4096).value.head != 3074;
  }

  lemma HeadStart(idx: Index, lcs: nat, size: nat, h: nat)
    requires lcs > 0 && IsHeadAt(idx, h)
    ensures ExtentOfHead(idx, lcs, size, h).Ok? ==>
              ExtentOfHead(idx, lcs, size, h).value.start == StartOf(idx, lcs, h)
  {
  }

  lemma EndsBeforeNext(idx: Index, lcs: nat, size: nat, h: nat, k: nat)
    requires WfIndex(idx, lcs) && IsHeadAt(idx, h) && IsHeadAt(idx, k) && h < k
    ensures TrueEnd(idx, lcs, size, h) <= StartOf(idx, lcs, k)
  {
    hide StartOf, BoundedIndex;
    var nh := NextHead(idx, h + 1);
    if nh < k {
      StartsOrdered(idx, lcs, nh, k);
    }
  }
}
