/**
 The legacy index: 8 bytes per lcluster. The writer puts it 16 bytes after the inode
 body; the reader looks 16 bytes after the body's end rounded up to 8.
 */
module LegacyIndex {
  import opened Basics
  import opened Bits
  import opened CompactPack
  import opened CompactRoundTrip
  import opened ZMapReader

  /** One entry as the writer holds it: type, offset within the lcluster, `u` union. */
  datatype LegacyEntry = LegacyEntry(ctype: nat, clusterofs: nat, u: nat)

  /** `encode_lcluster_index`. */
  function LegacyEntryBytes(e: LegacyEntry): (s: seq<byte>)
    ensures |s| == 8
  {
    ToLE(e.ctype % 4, 2) + ToLE(e.clusterofs, 2) + ToLE(e.u, 4)
  }

  function LegacyBytes(es: seq<LegacyEntry>): (s: seq<byte>)
    ensures |s| == 8 * |es|
  {
    if es == [] then [] else LegacyBytes(es[..|es| - 1]) + LegacyEntryBytes(es[|es| - 1])
  }

  ghost predicate LegacyFits(e: LegacyEntry) {
    e.ctype < 4 && e.clusterofs < 0x1_0000 && e.u < 0x1_0000_0000
  }

  function AsRead(e: LegacyEntry): LEntry {
    LEntry(e.ctype, e.ctype, e.clusterofs, e.u, None)
  }

  lemma {:induction false} LegacyEntryAt(es: seq<LegacyEntry>, i: nat)
    requires i < |es|
    ensures LegacyBytes(es)[8 * i..8 * i + 8] == LegacyEntryBytes(es[i])
    decreases |es|
  {
    hide LegacyEntryBytes;
    var n := |es| - 1;
    var front, last := LegacyBytes(es[..n]), LegacyEntryBytes(es[n]);
    assert LegacyBytes(es) == front + last;
    if i == n {
      assert (front + last)[8 * i..8 * i + 8] == last;
    } else {
      LegacyEntryAt(es[..n], i);
      assert (front + last)[8 * i..8 * i + 8] == front[8 * i..8 * i + 8];
    }
  }

  lemma LegacyEntryParts(e: LegacyEntry)
    requires LegacyFits(e)
    ensures var b := LegacyEntryBytes(e);
            LE(b[..2]) == e.ctype && LE(b[2..4]) == e.clusterofs && LE(b[4..]) == e.u
  {
    hide LE, ToLE;
    var b := LegacyEntryBytes(e);
    assert b[..2] == ToLE(e.ctype, 2) && b[2..4] == ToLE(e.clusterofs, 2) && b[4..] == ToLE(e.u, 4);
    Pow2Of32();
    LEOfFitting(e.ctype, 2);
    LEOfFitting(e.clusterofs, 2);
    LEOfFitting(e.u, 4);
  }

  /** Legacy index round trip, on an index that starts where the reader looks. */
  lemma LegacyIndexReadsBack(dev: seq<byte>, indexStart: nat, es: seq<LegacyEntry>, i: nat)
    requires i < |es| && LegacyFits(es[i])
    requires ReadAt(dev, indexStart, 8 * |es|) == Ok(LegacyBytes(es))
    ensures ReadLclusterLegacy(dev, indexStart, false, i) == Ok(AsRead(es[i]))
  {
    hide LE, LegacyEntryBytes, LegacyBytes;
    LegacyEntryAt(es, i);
    SliceSlice(dev, indexStart, indexStart + 8 * |es|, 8 * i, 8 * i + 8);
    LegacyEntryParts(es[i]);
  }

  // ----- The unaligned case

  /** Where the writer puts the index of a body that ends at `bodyEnd`. */
  function WriterIndexStart(bodyEnd: nat): nat {
    bodyEnd + 16
  }

  /** Where the reader looks for it. */
  function ReaderIndexStart(bodyEnd: nat): nat {
    AlignUp(bodyEnd, 8) + 8 + 8
  }

  /** Every entry the writer emitted comes back as it was. */
  ghost predicate ReadsBack(dev: seq<byte>, bodyEnd: nat, es: seq<LegacyEntry>) {
    forall i :: 0 <= i < |es| ==>
      ReadLclusterLegacy(dev, ReaderIndexStart(bodyEnd), false, i) == Ok(AsRead(es[i]))
  }

  /**
   Inode bodies and xattrs are multiples of four bytes, so a body can end four bytes off
   the reader's alignment. The writer never pads, and an index, however short, then reads
   back exactly when the body ends on an 8-byte boundary. The first entry is a head at
   offset 0, and file data never lies in block 0 or 1.
   */
  lemma LegacyReadsBackIffAligned(dev: seq<byte>, bodyEnd: nat, es: seq<LegacyEntry>)
    requires bodyEnd % 4 == 0 && |es| >= 1
    requires forall i :: 0 <= i < |es| ==> LegacyFits(es[i])
    requires (es[0].ctype == PLAIN || es[0].ctype == HEAD1) && es[0].clusterofs == 0 && es[0].u >= 2
    requires ReadAt(dev, WriterIndexStart(bodyEnd), 8 * |es|) == Ok(LegacyBytes(es))
    ensures ReadsBack(dev, bodyEnd, es) <==> bodyEnd % 8 == 0
  {
    hide LE, LegacyBytes, ReadLclusterLegacy, AlignUp;
    var start := WriterIndexStart(bodyEnd);
    BodyAlignment(bodyEnd);
    if bodyEnd % 8 == 0 {
      forall i | 0 <= i < |es|
        ensures ReadLclusterLegacy(dev, start, false, i) == Ok(AsRead(es[i]))
      {
        LegacyIndexReadsBack(dev, start, es, i);
      }
    } else {
      ShiftedFirstEntry(dev, start, es);
      assert ReadLclusterLegacy(dev, start + 4, false, 0) != Ok(AsRead(es[0]));
    }
  }

  lemma BodyAlignment(bodyEnd: nat)
    requires bodyEnd % 4 == 0
    ensures ReaderIndexStart(bodyEnd) == WriterIndexStart(bodyEnd) + if bodyEnd % 8 == 0 then 0 else 4
  {
    var q := bodyEnd / 8;
    assert bodyEnd == 8 * q || bodyEnd == 8 * q + 4;
  }

  lemma LEOfPair(a: seq<byte>, b: seq<byte>)
    requires |a| == 2
    ensures LE(a + b) == LE(a) + 0x1_0000 * LE(b)
  {
    var t := a[1..];
    assert (a + b)[1..] == t + b && (t + b)[1..] == b && t[1..] == [];
    assert LE(t + b) == t[0] as int + 256 * LE(b);
    assert LE(t) == t[0];
  }

  /** The first four bytes read four bytes late are the last four of the first entry. */
  lemma LateSlice(dev: seq<byte>, at: nat, a: seq<byte>)
    requires |a| == 8 && at + 12 <= |dev| && dev[at..at + 8] == a
    ensures var read := dev[at + 4..at + 12];
            read[..2] == a[4..][..2] && read[2..4] == a[4..][2..]
  {
    var read := dev[at + 4..at + 12];
    SliceSlice(dev, at + 4, at + 12, 0, 2);
    SliceSlice(dev, at + 4, at + 12, 2, 4);
    SliceSlice(dev, at, at + 8, 4, 6);
    SliceSlice(dev, at, at + 8, 6, 8);
    assert read[..2] == read[0..2];
    assert a[4..][..2] == a[4..6] && a[4..][2..] == a[6..8];
  }

  /**
   Four bytes late, the two halves of the first entry's address are taken for its type and
   its offset, if the device goes on that far.
   */
  lemma ShiftedFirstEntry(dev: seq<byte>, start: nat, es: seq<LegacyEntry>)
    requires |es| >= 1 && LegacyFits(es[0])
    requires ReadAt(dev, start, 8 * |es|) == Ok(LegacyBytes(es))
    ensures var r := ReadLclusterLegacy(dev, start + 4, false, 0);
            r.Ok? ==> r.value.adviseRaw + 0x1_0000 * r.value.clusterofs == es[0].u
  {
    hide LE, LegacyBytes, ToLE, LegacyEntryBytes;
    var a := LegacyEntryBytes(es[0]);
    LegacyEntryAt(es, 0);
    SliceSlice(dev, start, start + 8 * |es|, 0, 8);
    if start + 12 <= |dev| {
      LateSlice(dev, start, a);
      assert a[4..][..2] + a[4..][2..] == a[4..];
      LegacyEntryParts(es[0]);
      LEOfPair(a[4..][..2], a[4..][2..]);
    }
  }
}
