/**
 One pack of the compact index: `vcnt` entries of `encodebits` bits each, then a
 32-bit base block address. The writer ORs entries into the bitstream byte by byte;
 the reader cuts a four-byte window out of it and walks the pack backwards.
 */
module CompactPack {
  import opened Basics
  import opened Bits

  const PLAIN: nat := 0
  const HEAD1: nat := 1
  const NONHEAD: nat := 2
  const HEAD2: nat := 3

  /** `1 << 11` in `lo`: a NONHEAD that carries its pcluster's block count. */
  const CBLKCNT: nat := 0x800

  datatype Shape = Shape(packBytes: nat, vcnt: nat, encodebits: nat) {
    function BitstreamLen(): nat {
      SatSub(packBytes, 4)
    }
    function BytesFor(lclusters: nat): nat
      requires vcnt > 0
    {
      DivCeil(lclusters, vcnt) * packBytes
    }
  }

  const COMPACT_4B: Shape := Shape(8, 2, 16)
  const COMPACT_2B: Shape := Shape(32, 16, 14)

  /** A shape of the format: its entries fill its bitstream exactly. */
  predicate FormatShape(s: Shape) {
    s == COMPACT_4B || s == COMPACT_2B
  }

  /** A decoded `(cluster_type, lo)` pair. */
  datatype Raw = Raw(ctype: nat, lo: nat)

  predicate IsHeadOrPlain(ctype: nat) {
    ctype == PLAIN || ctype == HEAD1 || ctype == HEAD2
  }

  predicate HasCblkcnt(lo: nat) {
    lo / CBLKCNT % 2 == 1
  }

  // ----- Writer

  function EntryValue(lobits: nat, e: Raw): nat {
    Or(Shl(e.ctype % 4, lobits), Low(e.lo, lobits))
  }

  /** The bitstream as one number: entry `k` ORed in at bit `encodebits * k`. */
  function Packed(encodebits: nat, lobits: nat, es: seq<Raw>): nat
    decreases |es|
  {
    if es == [] then 0
    else
      var n := |es| - 1;
      Or(Packed(encodebits, lobits, es[..n]), Shl(EntryValue(lobits, es[n]), encodebits * n))
  }

  /** An entry value has no bits above its `lobits + 2` field. */
  lemma EntryValueFits(lobits: nat, e: Raw, width: nat)
    requires lobits + 2 <= width
    ensures Shr(EntryValue(lobits, e), width) == 0
  {
    var t := e.ctype % 4;
    OrShr(Shl(t, lobits), Low(e.lo, lobits), width);
    ShrShl(t, lobits, width);
    assert Shr(t, 2) == t / 2 / 2 by { assert Shr(t, 2) == Shr(t / 2, 1); }
    ShrShr(t, 2, width - lobits - 2);
    ShrZero(width - lobits - 2);
    LowIsSmall(e.lo, lobits, width);
  }

  /** The two halves of an entry value. */
  lemma EntryValueFields(lobits: nat, e: Raw)
    ensures Low(EntryValue(lobits, e), lobits) == Low(e.lo, lobits)
    ensures Shr(EntryValue(lobits, e), lobits) == e.ctype % 4
  {
    var t := e.ctype % 4;
    OrLow(Shl(t, lobits), Low(e.lo, lobits), lobits);
    LowShl(t, lobits, lobits);
    LowLow(e.lo, lobits, lobits);
    OrShr(Shl(t, lobits), Low(e.lo, lobits), lobits);
    ShrShl(t, lobits, lobits);
    LowIsSmall(e.lo, lobits, lobits);
  }

  /** `ToLE` sees only the bits that fit. */
  lemma ToLEOfLow(n: nat, len: nat)
    ensures ToLE(Low(n, 8 * len), len) == ToLE(n, len)
  {
    ToLELE(ToLE(n, len));
    LEToLE(n, len);
  }

  /** Byte `j` after ORing `x` into the string `s`. */
  lemma OrByte(s: seq<byte>, x: nat, j: nat)
    requires j < |s|
    ensures ToLE(Or(LE(s), x), |s|)[j] == Or(s[j], Shr(x, 8 * j) % 256)
  {
    var n := Or(LE(s), x);
    ToLEAt(n, |s|, j);
    OrShr(LE(s), x, 8 * j);
    ByteShift(Shr(n, 8 * j));
    OrLow(Shr(LE(s), 8 * j), Shr(x, 8 * j), 8);
    ByteShift(Shr(LE(s), 8 * j));
    ByteShift(Shr(x, 8 * j));
    LEAt(s, j);
  }

  lemma {:induction false} OrBound(a: nat, b: nat, k: nat)
    requires a < Pow2(k) && b < Pow2(k)
    ensures Or(a, b) < Pow2(k)
    decreases k
  {
    if k > 0 { OrBound(a / 2, b / 2, k - 1); }
  }

  lemma OrByteBound(a: byte, b: byte)
    ensures Or(a, b) < 256
  {
    assert Pow2(8) == 256;
    OrBound(a, b, 8);
  }

  /**
   The bytes an entry touches. `shifted` is the entry value moved to its place inside
   its first byte; byte `byteAt + k` of the stream takes byte `k` of it, and no other
   byte takes anything.
   */
  lemma ShiftedBytes(value: nat, lobits: nat, bitPos: nat, j: nat)
    requires lobits < 32 && Shr(value, lobits + 2) == 0
    ensures var byteAt, shifted := bitPos / 8, Shl(value, bitPos % 8);
            Shr(Shl(value, bitPos), 8 * j) % 256
            == if byteAt <= j < byteAt + 8 then Shr(shifted, 8 * (j - byteAt)) % 256 else 0
  {
    var byteAt, sh := bitPos / 8, bitPos % 8;
    if j < byteAt {
      ShrShl(value, bitPos, 8 * j);
      var d := bitPos - 8 * j;
      assert d >= 8;
      LowShl(value, d, 8);
      ByteShift(Shl(value, d));
    } else {
      ShlShl(value, sh, 8 * byteAt);
      ShrShl(Shl(value, sh), 8 * byteAt, 8 * j);
      if j >= byteAt + 8 {
        var d := 8 * (j - byteAt);
        ShrShl(value, sh, d);
        ShrShr(value, lobits + 2, d - sh - (lobits + 2));
        ShrZero(d - sh - (lobits + 2));
      }
    }
  }

  lemma EntryValueIs(lobits: nat, e: Raw)
    ensures EntryValue(lobits, e) == Or(Shl(e.ctype % 4, lobits), Low(e.lo, lobits))
  {
  }

  /**
   `pack_write_entry`, in place on the bitstream `out[at..at + len]`. The stream gains
   the entry's bits at `bitPos`, cut off at its end; nothing else in `out` moves.
   */
  method PackWriteEntry(out: array<byte>, at: nat, len: nat, bitPos: nat, lobits: nat, e: Raw)
    requires at + len <= out.Length && lobits < 32
    modifies out
    ensures out[..] == old(out[..at])
                       + ToLE(Or(LE(old(out[at..at + len])), Shl(EntryValue(lobits, e), bitPos)), len)
                       + old(out[at + len..])
  {
    hide Shr, Shl, Low, Or, LE, ToLE, EntryValue;
    EntryValueIs(lobits, e);
    ghost var was := out[at..at + len];
    var value := Or(Shl(e.ctype % 4, lobits), Low(e.lo, lobits));
    var shifted := Shl(value, bitPos % 8);
    var byteAt := bitPos / 8;
    EntryValueFits(lobits, e, lobits + 2);
    for k := 0 to 8
      invariant out[..at] == old(out[..at]) && out[at + len..] == old(out[at + len..])
      invariant forall j :: 0 <= j < len ==>
                  out[at + j] == if byteAt <= j < byteAt + k
                                 then Or(was[j], Shr(shifted, 8 * (j - byteAt)) % 256) else was[j]
    {
      if byteAt + k < len {
        OrByteBound(out[at + byteAt + k], Shr(shifted, 8 * k) % 256);
        out[at + byteAt + k] := Or(out[at + byteAt + k], Shr(shifted, 8 * k) % 256);
      }
    }
    ghost var x := Shl(value, bitPos);
    forall j | 0 <= j < len
      ensures out[at..at + len][j] == ToLE(Or(LE(was), x), len)[j]
    {
      OrByte(was, x, j);
      OrZero(was[j]);
      ShiftedBytes(value, lobits, bitPos, j);
    }
  }

  /** Writing the next entry extends the packed number by one. */
  lemma PackedStep(encodebits: nat, lobits: nat, es: seq<Raw>, e: Raw, len: nat)
    ensures ToLE(Or(LE(ToLE(Packed(encodebits, lobits, es), len)),
                    Shl(EntryValue(lobits, e), encodebits * |es|)), len)
            == ToLE(Packed(encodebits, lobits, es + [e]), len)
  {
    var p, x := Packed(encodebits, lobits, es), Shl(EntryValue(lobits, e), encodebits * |es|);
    assert (es + [e])[..|es|] == es;
    LEToLE(p, len);
    OrLow(Low(p, 8 * len), x, 8 * len);
    LowLow(p, 8 * len, 8 * len);
    OrLow(p, x, 8 * len);
    ToLEOfLow(Or(Low(p, 8 * len), x), len);
    ToLEOfLow(Or(p, x), len);
  }

  // ----- Reader

  datatype PackGeom = PackGeom(shape: Shape, lobits: nat)

  function Window(bits: seq<byte>, at: nat): (w: seq<byte>)
    ensures |w| == 4
  {
    seq(4, k requires 0 <= k < 4 => if at + k < |bits| then bits[at + k] else 0)
  }

  /** `decode_packed_entry`. */
  function DecodePackedEntry(g: PackGeom, bits: seq<byte>, intra: nat): Result<Raw> {
    var bitPos := g.shape.encodebits * intra;
    var v := Shr(LE(Window(bits, bitPos / 8)), bitPos % 8);
    if g.lobits >= 32 then Err
    else Ok(Raw(Low(Shr(v, g.lobits), 2), Low(v, g.lobits)))
  }

  lemma WindowValue(bits: seq<byte>, at: nat)
    ensures LE(Window(bits, at)) == Low(Shr(LE(bits), 8 * at), 32)
  {
    hide Shr, Low, LE;
    var w, n := Window(bits, at), Shr(LE(bits), 8 * at);
    forall k | 0 <= k < 4
      ensures w[k] == ToLE(n, 4)[k]
    {
      ToLEAt(n, 4, k);
      ShrShr(LE(bits), 8 * at, 8 * k);
      if at + k < |bits| {
        LEAt(bits, at + k);
      } else {
        LEShrPast(bits, 8 * (at + k));
      }
    }
    assert w == ToLE(n, 4);
    LEToLE(n, 4);
  }

  lemma WindowOfStream(n: nat, at: nat, sh: nat)
    requires sh <= 32
    ensures Shr(Low(Shr(n, 8 * at), 32), sh) == Low(Shr(n, 8 * at + sh), 32 - sh)
  {
    hide *;
    ShrLow(Shr(n, 8 * at), sh, 32 - sh);
    ShrShr(n, 8 * at, sh);
  }

  /** Cutting a slot of `w` bits out of a stream of `room` more bits, then a field out of it. */
  lemma FieldOfSlot(q: nat, room: nat, w: nat, lobits: nat, k: nat, v: nat)
    requires lobits + k <= w <= room && Low(q, w) == v
    ensures Low(Low(q, room), lobits) == Low(v, lobits)
    ensures Low(Shr(Low(q, room), lobits), k) == Low(Shr(v, lobits), k)
  {
    hide *;
    FieldOf(q, room, lobits, k);
    FieldOf(q, w, lobits, k);
  }

  lemma FieldOf(q: nat, room: nat, lobits: nat, k: nat)
    requires lobits + k <= room
    ensures Low(Low(q, room), lobits) == Low(q, lobits)
    ensures Low(Shr(Low(q, room), lobits), k) == Low(Shr(q, lobits), k)
  {
    hide *;
    LowLow(q, room, lobits);
    var rest := room - lobits;
    assert room == lobits + rest;
    ShrLow(q, lobits, rest);
    LowLow(Shr(q, lobits), rest, k);
  }

  /** Decoding is cutting two fields out of the stream's number. */
  lemma DecodeIsField(g: PackGeom, bits: seq<byte>, intra: nat)
    requires g.lobits + 9 <= 32
    ensures var n := Shr(LE(bits), g.shape.encodebits * intra);
            DecodePackedEntry(g, bits, intra)
            == Ok(Raw(Low(Shr(n, g.lobits), 2), Low(n, g.lobits)))
  {
    hide Shr, Low, LE, Window;
    var bitPos := g.shape.encodebits * intra;
    var at, sh := bitPos / 8, bitPos % 8;
    var n := Shr(LE(bits), bitPos);
    WindowOfStream(LE(bits), at, sh);
    WindowValue(bits, at);
    assert 8 * at + sh == bitPos;
    FieldOf(n, 32 - sh, g.lobits, 2);
  }

  lemma {:induction false} PackedIsShort(encodebits: nat, lobits: nat, es: seq<Raw>)
    requires lobits + 2 <= encodebits
    ensures Shr(Packed(encodebits, lobits, es), encodebits * |es|) == 0
    decreases |es|
  {
    hide Shr, Shl, Or, EntryValue;
    if es == [] {
      ShrZero(encodebits * |es|);
    } else {
      var n := |es| - 1;
      PackedIsShort(encodebits, lobits, es[..n]);
      EntryValueFits(lobits, es[n], encodebits);
      OrAboveIsShort(Packed(encodebits, lobits, es[..n]), EntryValue(lobits, es[n]), encodebits * n, encodebits);
      assert encodebits * n + encodebits == encodebits * |es|;
    }
  }

  lemma OrAboveIsShort(p: nat, v: nat, at: nat, width: nat)
    requires Shr(p, at) == 0 && Shr(v, width) == 0
    ensures Shr(Or(p, Shl(v, at)), at + width) == 0
  {
    OrShr(p, Shl(v, at), at + width);
    ShrShr(p, at, width);
    ShrZero(width);
    ShrShl(v, at, at + width);
  }

  /** When the fields fit their slots, slot `i` of the stream holds entry `i`. */
  lemma SlotHoldsEntry(encodebits: nat, lobits: nat, es: seq<Raw>, i: nat)
    requires lobits + 2 <= encodebits && i < |es|
    ensures Low(Shr(Packed(encodebits, lobits, es), encodebits * i), encodebits)
            == EntryValue(lobits, es[i])
    decreases |es|
  {
    hide Shr, Shl, Or, Low, EntryValue;
    var n := |es| - 1;
    var p, v := Packed(encodebits, lobits, es[..n]), EntryValue(lobits, es[n]);
    var from, at := encodebits * n, encodebits * i;
    MulMono(i, n, encodebits);
    OrShr(p, Shl(v, from), at);
    OrLow(Shr(p, at), Shr(Shl(v, from), at), encodebits);
    ShrShl(v, from, at);
    if i == n {
      PackedIsShort(encodebits, lobits, es[..n]);
      EntryValueFits(lobits, es[n], encodebits);
      LowOfSmall(v, encodebits);
      ShrZero(encodebits);
      OrZero(v);
      ShlZero(v);
    } else {
      SlotHoldsEntry(encodebits, lobits, es[..n], i);
      MulMono(i + 1, n, encodebits);
      assert (i + 1) * encodebits == at + encodebits;
      LowShl(v, from - at, encodebits);
      OrZero(Low(Shr(p, at), encodebits));
    }
  }

  /**
   The bit-level round trip: whatever entries are ORed into a stream that has room for
   them, each is cut back out of it exactly, byte boundaries or not.
   */
  lemma DecodeOfPacked(g: PackGeom, es: seq<Raw>, i: nat)
    requires FormatShape(g.shape) && g.lobits + 2 <= g.shape.encodebits
    requires |es| <= g.shape.vcnt && i < |es|
    ensures var bits := ToLE(Packed(g.shape.encodebits, g.lobits, es), g.shape.BitstreamLen());
            DecodePackedEntry(g, bits, i) == Ok(Raw(es[i].ctype % 4, Low(es[i].lo, g.lobits)))
  {
    var w, len := g.shape.encodebits, g.shape.BitstreamLen();
    var p := Packed(w, g.lobits, es);
    DecodeIsField(g, ToLE(p, len), i);
    LEToLE(p, len);
    assert 8 * len == w * g.shape.vcnt;
    MulMono(i + 1, g.shape.vcnt, w);
    var room := 8 * len - w * i;
    ShrLow(p, w * i, room);
    SlotHoldsEntry(w, g.lobits, es, i);
    FieldOfSlot(Shr(p, w * i), room, w, g.lobits, 2, EntryValue(g.lobits, es[i]));
    EntryValueFields(g.lobits, es[i]);
    LowOfTwoBits(es[i].ctype % 4);
  }

  lemma LowOfTwoBits(t: nat)
    requires t < 4
    ensures Low(t, 2) == t
  {
    assert Low(t, 2) == t % 2 + 2 * Low(t / 2, 1);
    assert Low(t / 2, 1) == t / 2 % 2 + 2 * Low(t / 4, 0);
  }

  // ----- Counting pclusters inside a pack

  /** Where the backward walk of `compact_count_simple` ends up, as a recursion. */
  function CountSimple(g: PackGeom, bits: seq<byte>, i: nat): Result<nat> {
    if i == 0 then Ok(1)
    else
      var e :- DecodePackedEntry(g, bits, i - 1);
      if e.ctype != NONHEAD then
        var n :- CountSimple(g, bits, i - 1);
        Ok(n + 1)
      else if HasCblkcnt(e.lo) then Err
      else if e.lo > i - 1 then Ok(1)
      else
        var n :- CountSimple(g, bits, i - 1 - e.lo);
        Ok(n + 1)
  }

  function AddTo(r: Result<nat>, k: int): Result<int> {
    match r
    case Ok(n) => Ok(n + k)
    case Err => Err
  }

  /** `compact_count_simple`. */
  method CompactCountSimple(g: PackGeom, bits: seq<byte>, intra: nat) returns (r: Result<nat>)
    ensures r == CountSimple(g, bits, intra)
  {
    hide DecodePackedEntry, HasCblkcnt;
    var nblk := 1;
    var i: int := intra;
    while i > 0
      invariant i <= intra && nblk >= 1
      invariant AddTo(CountSimple(g, bits, intra), 0)
                == if i >= 0 then AddTo(CountSimple(g, bits, i), nblk - 1) else Ok(nblk)
      decreases i
    {
      i := i - 1;
      var d := DecodePackedEntry(g, bits, i);
      if d.Err? {
        return Err;
      }
      if d.value.ctype == NONHEAD {
        if HasCblkcnt(d.value.lo) {
          return Err;
        }
        i := i - d.value.lo;
      }
      if i >= 0 {
        nblk := nblk + 1;
      }
    }
    return Ok(nblk);
  }

  function HeadsIn(es: seq<Raw>): nat {
    if es == [] then 0
    else HeadsIn(es[..|es| - 1]) + if es[|es| - 1].ctype == NONHEAD then 0 else 1
  }

  ghost predicate Decodes(g: PackGeom, bits: seq<byte>, es: seq<Raw>) {
    forall i :: 0 <= i < |es| ==> DecodePackedEntry(g, bits, i) == Ok(es[i])
  }

  /** Entry `j` and its neighbours down to `from` are all NONHEAD. */
  ghost predicate AllNonhead(es: seq<Raw>, from: int, j: int) {
    forall k :: 0 <= k < |es| && from <= k <= j ==> es[k].ctype == NONHEAD
  }

  /** Every NONHEAD says exactly how far back its head is, inside the pack or before it. */
  ghost predicate DeltasExact(es: seq<Raw>) {
    forall j :: 0 <= j < |es| && es[j].ctype == NONHEAD ==>
      && es[j].lo >= 1
      && AllNonhead(es, j - es[j].lo + 1, j)
      && (es[j].lo <= j ==> es[j - es[j].lo].ctype != NONHEAD)
  }

  lemma HeadsInPrefix(es: seq<Raw>, i: nat)
    requires 0 < i <= |es|
    ensures HeadsIn(es[..i]) == HeadsIn(es[..i - 1]) + if es[i - 1].ctype == NONHEAD then 0 else 1
  {
    assert es[..i][..i - 1] == es[..i - 1];
  }

  lemma {:induction false} NonheadRunAddsNothing(es: seq<Raw>, from: nat, until: nat)
    requires from <= until <= |es| && AllNonhead(es, from, until - 1)
    ensures HeadsIn(es[..until]) == HeadsIn(es[..from])
    decreases until
  {
    if from != until {
      HeadsInPrefix(es, until);
      NonheadRunAddsNothing(es, from, until - 1);
    }
  }

  lemma NoHeadsAtStart(es: seq<Raw>)
    ensures HeadsIn(es[..0]) == 0
  {
  }

  lemma RunFromStart(es: seq<Raw>, from: int, until: nat)
    requires from <= 0 <= until <= |es| && AllNonhead(es, from, until - 1)
    ensures HeadsIn(es[..until]) == HeadsIn(es[..0])
  {
    NonheadRunAddsNothing(es, 0, until);
  }

  /**
   The jumping walk counts every pcluster before entry `i` once: `nblk` is one more than
   the number of HEAD and PLAIN entries before it, including when the pack opens in the
   middle of a pcluster.
   */
  lemma {:induction false} CountSimpleCountsHeads(g: PackGeom, bits: seq<byte>, es: seq<Raw>, i: nat)
    requires Decodes(g, bits, es) && DeltasExact(es) && i <= |es|
    requires forall j :: 0 <= j < i && es[j].ctype == NONHEAD ==> !HasCblkcnt(es[j].lo)
    ensures CountSimple(g, bits, i) == Ok(1 + HeadsIn(es[..i]))
    decreases i
  {
    hide DecodePackedEntry, HasCblkcnt, HeadsIn, AllNonhead;
    if i == 0 {
      NoHeadsAtStart(es);
    } else {
      var e := es[i - 1];
      assert DecodePackedEntry(g, bits, i - 1) == Ok(e);
      if e.ctype != NONHEAD {
        CountSimpleCountsHeads(g, bits, es, i - 1);
        HeadsInPrefix(es, i);
      } else if e.lo > i - 1 {
        RunFromStart(es, i - e.lo, i);
        NoHeadsAtStart(es);
      } else {
        var h := i - 1 - e.lo;
        CountSimpleCountsHeads(g, bits, es, h);
        HeadsInPrefix(es, h + 1);
        NonheadRunAddsNothing(es, h + 1, i);
      }
    }
  }

  // ----- Counting blocks inside a pack that holds big pclusters

  predicate IsMarker(e: Raw) {
    e.ctype == NONHEAD && HasCblkcnt(e.lo)
  }

  function MarkedBlocks(e: Raw): nat {
    e.lo % CBLKCNT
  }

  /**
   Blocks of the pclusters recorded in `es`, read forwards: a head with a block-count
   marker behind it weighs what the marker says, any other head weighs one block, and a
   marker the pack opens with belongs to a head in the pack before.
   */
  function BlocksRecorded(es: seq<Raw>): nat
    decreases |es|
  {
    if es == [] then 0
    else if es[0].ctype != NONHEAD then
      if |es| > 1 && IsMarker(es[1]) then MarkedBlocks(es[1]) + BlocksRecorded(es[2..])
      else 1 + BlocksRecorded(es[1..])
    else if IsMarker(es[0]) then MarkedBlocks(es[0]) + BlocksRecorded(es[1..])
    else BlocksRecorded(es[1..])
  }

  lemma BlocksRecordedFrom(es: seq<Raw>, j: nat)
    requires j < |es|
    ensures var rest := BlocksRecorded(es[j + 1..]);
            BlocksRecorded(es[j..])
            == if IsMarker(es[j]) then MarkedBlocks(es[j]) + rest
               else if es[j].ctype == NONHEAD || (j + 1 < |es| && IsMarker(es[j + 1])) then rest
               else 1 + rest
  {
    assert es[j..][1..] == es[j + 1..];
    if j + 1 < |es| {
      assert es[j..][2..] == es[j + 2..];
      assert es[j + 1..][1..] == es[j + 2..];
      assert es[j..][1] == es[j + 1] == es[j + 1..][0];
    }
  }

  function FirstEntries(g: PackGeom, bits: seq<byte>, n: nat): (es: seq<Raw>)
    requires g.lobits < 32
    ensures |es| == n && Decodes(g, bits, es)
  {
    seq(n, i requires 0 <= i < n => DecodePackedEntry(g, bits, i).value)
  }

  function CountBigPcluster(g: PackGeom, bits: seq<byte>, intra: nat): Result<nat> {
    if g.lobits < 32 then Ok(BlocksRecorded(FirstEntries(g, bits, intra)))
    else if intra == 0 then Ok(0) else Err
  }

  /** `compact_count_big_pcluster`: the backward scan agrees with the forward reading. */
  method CompactCountBigPcluster(g: PackGeom, bits: seq<byte>, intra: nat) returns (r: Result<nat>)
    ensures r == CountBigPcluster(g, bits, intra)
  {
    var nblk := 0;
    if intra == 0 {
      return Ok(nblk);
    }
    ghost var es := if g.lobits < 32 then FirstEntries(g, bits, intra) else [];
    hide HasCblkcnt, FirstEntries;
    var j := intra;
    while j > 0
      invariant 0 <= j <= intra
      invariant if g.lobits < 32 then nblk == BlocksRecorded(es[j..]) else j == intra
    {
      j := j - 1;
      var d := DecodePackedEntry(g, bits, j);
      if d.Err? {
        return Err;
      }
      BlocksRecordedFrom(es, j);
      assert d == Ok(es[j]);
      if d.value.ctype == NONHEAD && HasCblkcnt(d.value.lo) {
        nblk := nblk + d.value.lo % CBLKCNT;
      } else if d.value.ctype != NONHEAD {
        var nextIsCblkcnt := false;
        if j + 1 < intra {
          var n := DecodePackedEntry(g, bits, j + 1);
          assert n == Ok(es[j + 1]);
          nextIsCblkcnt := n.value.ctype == NONHEAD && HasCblkcnt(n.value.lo);
        }
        if !nextIsCblkcnt {
          nblk := nblk + 1;
        }
      }
    }
    assert es[0..] == es;
    return Ok(nblk);
  }

  // ----- Distance of a NONHEAD entry

  /** `compact_nonhead_delta0`: the last entry of a pack derives it from its neighbour. */
  function NonheadDelta0(g: PackGeom, bits: seq<byte>, intra: nat, lo: nat): Result<nat> {
    if intra + 1 != g.shape.vcnt then Ok(lo % 0x1_0000)
    else if intra == 0 then Err
    else
      var prev :- DecodePackedEntry(g, bits, intra - 1);
      var derived := if prev.ctype != NONHEAD then 0 else if HasCblkcnt(prev.lo) then 1 else prev.lo;
      if derived == U32_MAX then Err else Ok((derived + 1) % 0x1_0000)
  }

  /** With exact distances the derived one is the one the writer meant. */
  lemma Delta0IsDistance(g: PackGeom, bits: seq<byte>, es: seq<Raw>, intra: nat)
    requires Decodes(g, bits, es) && DeltasExact(es) && intra < |es| <= g.shape.vcnt
    requires g.shape.vcnt > 1
    requires es[intra].ctype == NONHEAD && es[intra].lo < 0x1_0000
    requires intra > 0 && es[intra - 1].ctype == NONHEAD ==> !HasCblkcnt(es[intra - 1].lo)
    requires intra > 0 && es[intra - 1].ctype == NONHEAD ==> es[intra].lo == es[intra - 1].lo + 1
    ensures NonheadDelta0(g, bits, intra, es[intra].lo) == Ok(es[intra].lo)
  {
    hide DecodePackedEntry, HasCblkcnt;
    if intra + 1 == g.shape.vcnt {
      assert DecodePackedEntry(g, bits, intra - 1) == Ok(es[intra - 1]);
      assert AllNonhead(es, intra - es[intra].lo + 1, intra);
    }
  }
}
