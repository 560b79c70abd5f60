/**
 Where the compact index stops reading back. The writer checks neither how long a
 pcluster gets nor how wide an lcluster is; here is exactly what each costs.
 */
module CompactLimits {
  import opened Basics
  import opened Bits
  import opened CompactIndex
  import opened CompactPack
  import opened CompactRoundTrip

  // ----- Distances that look like block counts

  /** Behind a distance with bit 11 set, the next entry of the same pack is lost or unreadable. */
  lemma PackMisreads(g: PackGeom, es: seq<CompactEntry>, j: nat)
    requires FormatShape(g.shape) && g.lobits + 2 <= g.shape.encodebits && |es| <= g.shape.vcnt
    requires ExactPack(g.lobits, es) && SmallDistances(g.lobits, es) && j + 1 < |es|
    requires es[j].raw.ctype == NONHEAD && HasCblkcnt(es[j].raw.lo)
    requires es[j + 1].raw.ctype != NONHEAD || j + 2 == g.shape.vcnt
    ensures ReadFromPack(g, PackBytes(g.shape, g.lobits, es), j + 1, false) != Ok(Expected(es[j + 1]))
  {
    hide DecodePackedEntry, Packed, HeadsIn, HasCblkcnt, DeltasExact, CountBigPcluster, OneBlockEach, BaseOf, PackBytes, LE;
    var rs, len := Raws(es), g.shape.BitstreamLen();
    var bits := PackBytes(g.shape, g.lobits, es)[..len];
    PackDecodes(g, es);
    assert DecodePackedEntry(g, bits, j + 1) == Ok(rs[j + 1]) && DecodePackedEntry(g, bits, j) == Ok(rs[j]);
    assert FieldsFit(g.lobits, es[j + 1].raw);
    MarkedIsLarge(es[j].raw.lo);
  }

  lemma MarkedIsLarge(lo: nat)
    requires HasCblkcnt(lo)
    ensures lo >= CBLKCNT
  {
  }

  lemma MarkStays(lo: nat)
    requires HasCblkcnt(lo) && lo + 1 < 0x1000
    ensures HasCblkcnt(lo + 1)
  {
  }

  /** In a 2B pack the mark stays to the end of the run, so some entry behind it misreads. */
  lemma {:induction false} PackMisreadsSomewhere(g: PackGeom, es: seq<CompactEntry>, j: nat) returns (k: nat)
    requires FormatShape(g.shape) && g.lobits + 2 <= g.shape.encodebits && |es| <= g.shape.vcnt
    requires ExactPack(g.lobits, es) && SmallDistances(g.lobits, es) && j + 1 < |es|
    requires es[j].raw.ctype == NONHEAD && HasCblkcnt(es[j].raw.lo)
    requires |es| == g.shape.vcnt || g.shape == COMPACT_4B
    requires g.shape == COMPACT_2B ==> g.lobits == 12
    ensures j < k < |es|
    ensures ReadFromPack(g, PackBytes(g.shape, g.lobits, es), k, false) != Ok(Expected(es[k]))
    decreases |es| - j
  {
    hide PackBytes, ReadFromPack, DeltasExact, OneBlockEach, HasCblkcnt;
    if es[j + 1].raw.ctype != NONHEAD || j + 2 == g.shape.vcnt {
      PackMisreads(g, es, j);
      k := j + 1;
    } else {
      assert es[j + 1].raw.lo == es[j].raw.lo + 1;
      assert FieldsFit(g.lobits, es[j + 1].raw);
      Pow2Of12();
      MarkStays(es[j].raw.lo);
      k := PackMisreadsSomewhere(g, es, j + 1);
    }
  }

  // ----- Distances wider than their field

  lemma LowBelow(n: nat, k: nat)
    requires n >= Pow2(k)
    ensures Low(n, k) < n
  {
    LowBound(n, k);
  }

  lemma TopIsMarked(lobits: nat, d: nat)
    requires 12 <= lobits <= 14 && d + 1 == Pow2(lobits)
    ensures HasCblkcnt(d)
  {
    Pow2Of12();
    assert Pow2(13) == 2 * Pow2(12) && Pow2(14) == 2 * Pow2(13);
  }

  /** A distance that does not fit comes back cut off, or is derived from one that was. */
  lemma LargeDistanceMisreads(g: PackGeom, es: seq<CompactEntry>, j: nat)
    requires FormatShape(g.shape) && 12 <= g.lobits && g.lobits + 2 <= g.shape.encodebits && |es| <= g.shape.vcnt
    requires ExactPack(g.lobits, es) && j < |es|
    requires es[j].raw.ctype == NONHEAD && es[j].raw.lo >= Pow2(g.lobits)
    ensures ReadFromPack(g, PackBytes(g.shape, g.lobits, es), j, false) != Ok(Expected(es[j]))
  {
    hide DecodePackedEntry, Packed, HeadsIn, HasCblkcnt, DeltasExact, CountBigPcluster, OneBlockEach, BaseOf, LE, ToLE, Low, Pow2;
    var rs, len, d := Raws(es), g.shape.BitstreamLen(), es[j].raw.lo;
    var bits := ToLE(Packed(g.shape.encodebits, g.lobits, rs), len);
    assert PackBytes(g.shape, g.lobits, es)[..len] == bits;
    DecodeOfPacked(g, rs, j);
    LowBelow(d, g.lobits);
    assert FieldsFit(g.lobits, es[j].raw);
    Pow2Mono(12, g.lobits);
    Pow2Of12();
    if j + 1 == g.shape.vcnt {
      DecodeOfPacked(g, rs, j - 1);
      assert FieldsFit(g.lobits, es[j - 1].raw);
      LowBound(es[j - 1].raw.lo, g.lobits);
      if es[j - 1].raw.ctype == NONHEAD && Low(es[j - 1].raw.lo, g.lobits) + 1 == d {
        TopIsMarked(g.lobits, d - 1);
      }
    }
  }

  // ----- Types that leave their slot

  /** A bit of the type, `lobits` bits into a slot of `w` bits, lies behind the slot. */
  predicate Spills(lobits: nat, w: nat, ctype: nat) {
    (ctype / 2 % 2 == 1 && lobits + 1 >= w) || (ctype % 2 == 1 && lobits >= w)
  }

  /** Entry `k` contributes bit `p` of the stream. */
  predicate Contributes(w: nat, lobits: nat, es: seq<Raw>, k: nat, p: nat)
    requires k < |es|
  {
    p >= w * k && Bit(EntryValue(lobits, es[k]), p - w * k)
  }

  lemma {:induction false} PackedBit(w: nat, lobits: nat, es: seq<Raw>, p: nat)
    ensures Bit(Packed(w, lobits, es), p) <==> exists k: nat :: k < |es| && Contributes(w, lobits, es, k, p)
    decreases |es|
  {
    hide Shr, Or, Shl, EntryValue, Bit;
    if es == [] {
      NoBitOfZero(p);
    } else {
      var n: nat := |es| - 1;
      PackedBit(w, lobits, es[..n], p);
      BitOr(Packed(w, lobits, es[..n]), Shl(EntryValue(lobits, es[n]), w * n), p);
      BitShl(EntryValue(lobits, es[n]), w * n, p);
      assert Bit(Packed(w, lobits, es), p) <==> Bit(Packed(w, lobits, es[..n]), p) || Contributes(w, lobits, es, n, p);
      hide Packed;
      if Bit(Packed(w, lobits, es[..n]), p) {
        var k: nat :| k < n && Contributes(w, lobits, es[..n], k, p);
        assert Contributes(w, lobits, es, k, p);
      } else if k: nat :| k < |es| && Contributes(w, lobits, es, k, p) {
        assert k < n ==> Contributes(w, lobits, es[..n], k, p);
      }
    }
  }

  lemma NoBitOfZero(p: nat)
    ensures !Bit(0, p)
  {
    ShrZero(p);
  }

  /** The bits of an entry value: its offset, and its type behind it. */
  lemma EntryBit(lobits: nat, e: Raw, p: nat)
    ensures Bit(EntryValue(lobits, e), p)
            <==> if p < lobits then Bit(e.lo, p) else (p == lobits && e.ctype % 2 == 1) || (p == lobits + 1 && e.ctype / 2 % 2 == 1)
  {
    hide *;
    var t := e.ctype % 4;
    assert EntryValue(lobits, e) == Or(Shl(t, lobits), Low(e.lo, lobits)) by { EntryValueIs(lobits, e); }
    BitOr(Shl(t, lobits), Low(e.lo, lobits), p);
    BitShl(t, lobits, p);
    BitLow(e.lo, lobits, p);
    if p >= lobits {
      TypeBit(t, p - lobits);
      TypeParity(e.ctype);
    }
  }

  lemma TypeParity(ctype: nat)
    ensures ctype % 4 % 2 == ctype % 2 && ctype % 4 / 2 % 2 == ctype / 2 % 2
  {
  }

  lemma TypeBit(t: nat, b: nat)
    requires t < 4
    ensures Bit(t, b) <==> (b == 0 && t % 2 == 1) || (b == 1 && t / 2 % 2 == 1)
  {
    ShrZero(if b < 2 then 0 else b - 2);
    if b >= 2 {
      assert Shr(t, b) == Shr(t / 2, b - 1) == Shr(t / 2 / 2, b - 2);
    } else if b == 1 {
      ShrOne(t);
    }
  }

  /** The bits a reader cuts out for entry `i`. */
  lemma DecodedBits(g: PackGeom, es: seq<Raw>, i: nat) returns (n: nat)
    requires FormatShape(g.shape) && g.lobits <= 20
    ensures var bits := ToLE(Packed(g.shape.encodebits, g.lobits, es), g.shape.BitstreamLen());
            DecodePackedEntry(g, bits, i) == Ok(Raw(Low(Shr(n, g.lobits), 2), Low(n, g.lobits)))
    ensures forall q: nat :: Bit(n, q) <==>
              && g.shape.encodebits * i + q < g.shape.encodebits * g.shape.vcnt
              && Bit(Packed(g.shape.encodebits, g.lobits, es), g.shape.encodebits * i + q)
  {
    hide Shr, Low, Bit, Packed, DecodePackedEntry, ToLE, LE;
    var w, len := g.shape.encodebits, g.shape.BitstreamLen();
    var p := Packed(w, g.lobits, es);
    DecodeIsField(g, ToLE(p, len), i);
    LEToLE(p, len);
    n := Shr(Low(p, 8 * len), w * i);
    forall q: nat
      ensures Bit(n, q) <==> w * i + q < w * g.shape.vcnt && Bit(p, w * i + q)
    {
      BitShr(Low(p, 8 * len), w * i, q);
      BitLow(p, 8 * len, w * i + q);
    }
  }

  /** Whatever a read gives, it gives the type that was cut out. */
  lemma ReadKeepsType(g: PackGeom, pack: seq<byte>, i: nat)
    requires |pack| == g.shape.BitstreamLen() + 4 && ReadFromPack(g, pack, i, false).Ok?
    ensures var e := DecodePackedEntry(g, pack[..g.shape.BitstreamLen()], i);
            e.Ok? && ReadFromPack(g, pack, i, false).value.ctype == e.value.ctype
            && (e.value.ctype != NONHEAD ==> ReadFromPack(g, pack, i, false).value.clusterofs == e.value.lo % 0x1_0000)
  {
    hide DecodePackedEntry, CountSimple, CountBigPcluster, NonheadDelta0, LE;
  }

  /** The bit of the type that spills. */
  function SpilledBit(lobits: nat, w: nat, ctype: nat): (b: nat)
    requires Spills(lobits, w, ctype)
    ensures b < 2 && lobits + b >= w && (if b == 0 then ctype % 2 == 1 else ctype / 2 % 2 == 1)
  {
    if ctype / 2 % 2 == 1 && lobits + 1 >= w then 1 else 0
  }

  lemma LowByteBit(n: nat, q: nat)
    requires Bit(n, q) && q < 8
    ensures n % 0x1_0000 != 0
  {
    hide Shr, Low;
    ByteShift(n);
    BitLow(n, 8, q);
    NoBitOfZero(q);
    LowByteOfWord(n);
  }

  lemma LowByteOfWord(n: nat)
    ensures n % 0x1_0000 == 0 ==> n % 256 == 0
  {
    if n % 0x1_0000 == 0 {
      var q := n / 0x1_0000;
      assert n == 0x1_0000 * q;
      DivModUnique(n, 256, 256 * q, 0);
    }
  }

  /** A type that spills falls into the offset of the head behind it. */
  lemma SpillMisreads(shape: Shape, lobits: nat, es: seq<CompactEntry>, k: nat)
    requires FormatShape(shape) && lobits <= 20 && |es| <= shape.vcnt && k + 1 < |es|
    requires Spills(lobits, shape.encodebits, es[k].raw.ctype)
    requires es[k + 1].raw.ctype != NONHEAD && es[k + 1].raw.lo == 0
    ensures ReadFromPack(PackGeom(shape, lobits), PackBytes(shape, lobits, es), k + 1, false) != Ok(Expected(es[k + 1]))
  {
    hide Shr, Low, Bit, Packed, DecodePackedEntry, ToLE, EntryValue, BaseOf, ReadFromPack, Spills;
    var g, w, rs := PackGeom(shape, lobits), shape.encodebits, Raws(es);
    var pack := PackBytes(shape, lobits, es);
    assert pack[..shape.BitstreamLen()] == ToLE(Packed(w, lobits, rs), shape.BitstreamLen());
    var b := SpilledBit(lobits, w, es[k].raw.ctype);
    var q: nat := lobits + b - w;
    EntryBit(lobits, rs[k], lobits + b);
    assert Contributes(w, lobits, rs, k, w * k + lobits + b);
    PackedBit(w, lobits, rs, w * k + lobits + b);
    var n := DecodedBits(g, rs, k + 1);
    assert w * (k + 1) + q == w * k + lobits + b;
    MulMono(k + 2, shape.vcnt, w);
    assert Bit(n, q);
    BitLow(n, lobits, q);
    LowByteBit(Low(n, lobits), q);
    if ReadFromPack(g, pack, k + 1, false).Ok? {
      ReadKeepsType(g, pack, k + 1);
    }
  }

  /** A type that spills out of the last slot of a pack is cut off with the stream. */
  lemma LastMisreads(shape: Shape, lobits: nat, es: seq<CompactEntry>)
    requires FormatShape(shape) && lobits <= 20 && |es| == shape.vcnt
    requires Spills(lobits, shape.encodebits, es[|es| - 1].raw.ctype)
    ensures ReadFromPack(PackGeom(shape, lobits), PackBytes(shape, lobits, es), |es| - 1, false) != Ok(Expected(es[|es| - 1]))
  {
    hide Shr, Low, Bit, Packed, DecodePackedEntry, ToLE, EntryValue, BaseOf, ReadFromPack, Spills;
    var g, w, rs, i := PackGeom(shape, lobits), shape.encodebits, Raws(es), |es| - 1;
    var pack := PackBytes(shape, lobits, es);
    assert pack[..shape.BitstreamLen()] == ToLE(Packed(w, lobits, rs), shape.BitstreamLen());
    var b := SpilledBit(lobits, w, es[i].raw.ctype);
    var n := DecodedBits(g, rs, i);
    assert w * i + (lobits + b) >= w * shape.vcnt;
    assert !Bit(n, lobits + b);
    TwoBits(n, lobits);
    if ReadFromPack(g, pack, i, false).Ok? {
      ReadKeepsType(g, pack, i);
    }
  }

  /** Of a whole pack with a type that spills some entry reads back as something else. */
  lemma {:induction false} SpillingPackMisreads(shape: Shape, lobits: nat, es: seq<CompactEntry>, j: nat) returns (k: nat)
    requires FormatShape(shape) && lobits <= 20 && |es| == shape.vcnt && HeadsAtZero(es) && j < |es|
    requires Spills(lobits, shape.encodebits, es[j].raw.ctype)
    ensures k < |es|
    ensures ReadFromPack(PackGeom(shape, lobits), PackBytes(shape, lobits, es), k, false) != Ok(Expected(es[k]))
    decreases |es| - j
  {
    hide PackBytes, ReadFromPack;
    if j == |es| - 1 {
      LastMisreads(shape, lobits, es);
      k := j;
    } else if Spills(lobits, shape.encodebits, es[j + 1].raw.ctype) {
      k := SpillingPackMisreads(shape, lobits, es, j + 1);
    } else {
      SpillMisreads(shape, lobits, es, j);
      k := j + 1;
    }
  }

  ghost predicate HeadsAtZero(es: seq<CompactEntry>) {
    forall i :: 0 <= i < |es| && es[i].raw.ctype != NONHEAD ==> es[i].raw.lo == 0
  }

  /** Without a type that spills, wide slots hold nothing but types, each where it is looked for. */
  lemma NoSpillStream(w: nat, lobits: nat, es: seq<CompactEntry>, i: nat, q: nat)
    requires (w == 14 || w == 16) && w <= lobits + 1 && lobits <= 20 && HeadsAtZero(es) && i < |es| && q <= lobits + 1
    requires forall k :: 0 <= k < |es| ==> es[k].raw.ctype < 4 && !Spills(lobits, w, es[k].raw.ctype)
    ensures Bit(Packed(w, lobits, Raws(es)), w * i + q) <==> q == lobits && es[i].raw.ctype == HEAD1
  {
    hide Bit, Packed, EntryValue, Shr;
    var rs, p := Raws(es), w * i + q;
    PackedBit(w, lobits, rs, p);
    forall k: nat | k < |rs| && p >= w * k
      ensures Contributes(w, lobits, rs, k, p) <==> p == w * k + lobits && es[k].raw.ctype == HEAD1
    {
      EntryBit(lobits, rs[k], p - w * k);
      NoBitOfZero(p - w * k);
    }
    if q == lobits && es[i].raw.ctype == HEAD1 {
      assert Contributes(w, lobits, rs, i, p);
    }
    if k: nat :| k < |rs| && Contributes(w, lobits, rs, k, p) {
      assert p == w * k + lobits && lobits + 1 == w;
      SameSlotBit(w, i, k, q);
    }
  }

  /** Types in the last bit of their slots are met only at the last bit of a slot. */
  lemma SameSlotBit(w: nat, i: nat, k: nat, q: nat)
    requires w > 1 && q <= w && w * i + q == w * k + (w - 1)
    ensures i == k && q == w - 1
  {
    if i < k {
      MulMono(i + 1, k, w);
      MulStep(i, w);
    } else if k < i {
      MulMono(k + 1, i, w);
      MulStep(k, w);
    }
  }

  lemma NoSpillDecodes(shape: Shape, lobits: nat, es: seq<CompactEntry>)
    requires FormatShape(shape) && shape.encodebits <= lobits + 1 && lobits <= 20 && |es| <= shape.vcnt && HeadsAtZero(es)
    requires forall k :: 0 <= k < |es| ==> es[k].raw.ctype < 4 && !Spills(lobits, shape.encodebits, es[k].raw.ctype)
    ensures Decodes(PackGeom(shape, lobits), PackBytes(shape, lobits, es)[..shape.BitstreamLen()], Raws(es))
  {
    hide Shr, Low, Bit, Packed, DecodePackedEntry, ToLE, EntryValue, BaseOf;
    var g, w, rs, len := PackGeom(shape, lobits), shape.encodebits, Raws(es), shape.BitstreamLen();
    var bits := ToLE(Packed(w, lobits, rs), len);
    assert PackBytes(shape, lobits, es)[..len] == bits;
    forall i | 0 <= i < |rs|
      ensures DecodePackedEntry(g, bits, i) == Ok(rs[i])
    {
      var n := DecodedBits(g, rs, i);
      forall q: nat | q <= lobits + 1
        ensures Bit(n, q) <==> q == lobits && es[i].raw.ctype == HEAD1
      {
        NoSpillStream(w, lobits, es, i, q);
      }
      NoLowBits(n, lobits);
      TwoBits(n, lobits);
    }
  }

  // ----- A pack of a single entry

  /** Alone in its pack an entry has room for any type, and its offset is cut to its field. */
  lemma SingleDecodes(lobits: nat, e: CompactEntry)
    requires lobits <= 20
    ensures DecodePackedEntry(PackGeom(COMPACT_4B, lobits), PackBytes(COMPACT_4B, lobits, [e])[..4], 0)
            == Ok(Raw(e.raw.ctype % 4, Low(e.raw.lo, lobits)))
  {
    hide Shr, Low, Packed, DecodePackedEntry, ToLE, LE, EntryValue, BaseOf;
    var g, rs := PackGeom(COMPACT_4B, lobits), Raws([e]);
    var p := Packed(16, lobits, rs);
    assert PackBytes(COMPACT_4B, lobits, [e])[..4] == ToLE(p, 4);
    DecodeIsField(g, ToLE(p, 4), 0);
    assert 16 * 0 == 0;
    ShlZero(LE(ToLE(p, 4)));
    LEToLE(p, 4);
    FieldOf(p, 32, lobits, 2);
    SinglePacked(lobits, rs);
    EntryValueFields(lobits, e.raw);
    LowOfTwoBits(e.raw.ctype % 4);
  }

  lemma SinglePacked(lobits: nat, rs: seq<Raw>)
    requires |rs| == 1
    ensures Packed(16, lobits, rs) == EntryValue(lobits, rs[0])
  {
    hide EntryValue;
    assert rs[..0] == [];
    assert 16 * 0 == 0;
    ShlZero(EntryValue(lobits, rs[0]));
  }

  // ----- One pack

  /**
   What it takes for a pack to be cut up as it was put together. Distances fit their field. If
   offset and type fit a slot together, no distance with bit 11 set has an entry behind it; if
   they do not, no type of a whole pack spills.
   */
  ghost predicate SlotsSurvive(shape: Shape, lobits: nat, es: seq<CompactEntry>) {
    && SmallDistances(lobits, es)
    && if lobits + 2 <= shape.encodebits then NoMarkers(es, 0, |es| - 1)
       else |es| == shape.vcnt ==> forall i :: 0 <= i < |es| ==> !Spills(lobits, shape.encodebits, es[i].raw.ctype)
  }

  /** Every head's address is the base and the heads in front of it, which is all a reader has. */
  ghost predicate CountsUp(es: seq<CompactEntry>) {
    forall i :: 0 <= i < |es| && es[i].raw.ctype != NONHEAD ==> es[i].blkaddr == BaseOf(es) + 1 + HeadsIn(Raws(es)[..i])
  }

  /** What it takes for a pack to read back. */
  ghost predicate PackSurvives(shape: Shape, lobits: nat, es: seq<CompactEntry>) {
    SlotsSurvive(shape, lobits, es) && CountsUp(es)
  }

  /** Addresses a HEAD or PLAIN entry can carry. */
  ghost predicate AddressesFit(es: seq<CompactEntry>) {
    forall i :: 0 <= i < |es| && es[i].raw.ctype != NONHEAD ==> 0 < es[i].blkaddr <= U32_MAX
  }

  ghost predicate EntryReadsBack(shape: Shape, lobits: nat, es: seq<CompactEntry>, i: nat)
    requires i < |es|
  {
    ReadFromPack(PackGeom(shape, lobits), PackBytes(shape, lobits, es), i, false) == Ok(Expected(es[i]))
  }

  ghost predicate PackReads(shape: Shape, lobits: nat, es: seq<CompactEntry>) {
    forall i :: 0 <= i < |es| ==> EntryReadsBack(shape, lobits, es, i)
  }

  /** Slots that survive are cut out of the pack intact. */
  lemma SurvivorDecodes(shape: Shape, lobits: nat, es: seq<CompactEntry>)
    requires FormatShape(shape) && 12 <= lobits <= 20 && ExactPack(lobits, es)
    requires |es| == shape.vcnt || (|es| == 1 && shape == COMPACT_4B)
    requires lobits + 2 <= shape.encodebits || HeadsAtZero(es)
    requires SlotsSurvive(shape, lobits, es)
    ensures Decodes(PackGeom(shape, lobits), PackBytes(shape, lobits, es)[..shape.BitstreamLen()], Raws(es))
    ensures NoMarkers(es, 0, |es| - 1)
  {
    hide ExactPack, PackBytes, Decodes, HasCblkcnt, Pow2, Spills;
    if lobits + 2 <= shape.encodebits {
      PackDecodes(PackGeom(shape, lobits), es);
    } else {
      TypesOf(lobits, es);
      if |es| == shape.vcnt {
        NoSpillDecodes(shape, lobits, es);
        NoNonheads(lobits, shape.encodebits, es);
      } else {
        SmallSingleDecodes(lobits, es);
      }
    }
  }

  lemma SurvivorReads(shape: Shape, lobits: nat, es: seq<CompactEntry>, i: nat)
    requires FormatShape(shape) && 12 <= lobits <= 20 && ExactPack(lobits, es) && AddressesFit(es)
    requires |es| == shape.vcnt || (|es| == 1 && shape == COMPACT_4B)
    requires lobits + 2 <= shape.encodebits || HeadsAtZero(es)
    requires PackSurvives(shape, lobits, es) && i < |es|
    ensures EntryReadsBack(shape, lobits, es, i)
  {
    hide ExactPack, PackBytes, ReadFromPack, Expected, Decodes, HasCblkcnt, SlotsSurvive, HeadsIn, BaseOf, Raws;
    SurvivorDecodes(shape, lobits, es);
    assert OneBlockEach(es, BaseOf(es) + 1);
    DecodedPackReadsBack(PackGeom(shape, lobits), es, BaseOf(es) + 1, i);
  }

  lemma TypesOf(lobits: nat, es: seq<CompactEntry>)
    requires ExactPack(lobits, es)
    ensures forall k :: 0 <= k < |es| ==> es[k].raw.ctype < 4 && FieldsFit(lobits, es[k].raw)
  {
  }

  lemma NoNonheads(lobits: nat, w: nat, es: seq<CompactEntry>)
    requires w <= lobits + 1 && forall k :: 0 <= k < |es| ==> !Spills(lobits, w, es[k].raw.ctype)
    ensures NoMarkers(es, 0, |es|)
  {
  }

  lemma SmallSingleDecodes(lobits: nat, es: seq<CompactEntry>)
    requires lobits <= 20 && |es| == 1 && ExactPack(lobits, es) && SmallDistances(lobits, es)
    ensures Decodes(PackGeom(COMPACT_4B, lobits), PackBytes(COMPACT_4B, lobits, es)[..4], Raws(es))
  {
    hide DecodePackedEntry, PackBytes, Pow2, Low, DeltasExact;
    SingleDecodes(lobits, es[0]);
    assert es == [es[0]];
    assert FieldsFit(lobits, es[0].raw);
    SmallShr(es[0].raw.lo, lobits);
    LowOfSmall(es[0].raw.lo, lobits);
  }

  lemma SingleLargeMisreads(lobits: nat, es: seq<CompactEntry>)
    requires 12 <= lobits <= 20 && |es| == 1 && es[0].raw.ctype == NONHEAD && Pow2(lobits) <= es[0].raw.lo < 0x1_0000
    ensures !EntryReadsBack(COMPACT_4B, lobits, es, 0)
  {
    hide DecodePackedEntry, PackBytes, Pow2, Low, LE, CountSimple;
    SingleDecodes(lobits, es[0]);
    assert es == [es[0]];
    LowBelow(es[0].raw.lo, lobits);
  }

  /** A pack whose slots do not survive has an entry that reads back as something else, whatever the addresses. */
  lemma BrokenMisreads(shape: Shape, lobits: nat, es: seq<CompactEntry>)
    requires FormatShape(shape) && 12 <= lobits <= 20 && ExactPack(lobits, es)
    requires |es| == shape.vcnt || (|es| == 1 && shape == COMPACT_4B)
    requires lobits + 2 <= shape.encodebits || HeadsAtZero(es)
    requires !SlotsSurvive(shape, lobits, es)
    ensures !PackReads(shape, lobits, es)
  {
    hide ExactPack, PackBytes, ReadFromPack, Expected, HasCblkcnt, Pow2;
    TypesOf(lobits, es);
    if lobits + 2 > shape.encodebits && |es| == shape.vcnt {
      var j := SpillingEntry(shape, lobits, es);
      var k := SpillingPackMisreads(shape, lobits, es, j);
      assert !EntryReadsBack(shape, lobits, es, k);
    } else if !SmallDistances(lobits, es) {
      var j :| 0 <= j < |es| && es[j].raw.ctype == NONHEAD && es[j].raw.lo >= Pow2(lobits);
      if lobits + 2 <= shape.encodebits {
        LargeDistanceMisreads(PackGeom(shape, lobits), es, j);
      } else {
        SingleLargeMisreads(lobits, es);
      }
      assert !EntryReadsBack(shape, lobits, es, j);
    } else {
      var j :| 0 <= j < |es| - 1 && es[j].raw.ctype == NONHEAD && HasCblkcnt(es[j].raw.lo);
      var k := PackMisreadsSomewhere(PackGeom(shape, lobits), es, j);
      assert !EntryReadsBack(shape, lobits, es, k);
    }
  }

  /** A type that spills; where slots are too narrow, every distance belongs to one. */
  lemma SpillingEntry(shape: Shape, lobits: nat, es: seq<CompactEntry>) returns (j: nat)
    requires lobits + 2 > shape.encodebits && |es| == shape.vcnt && !SlotsSurvive(shape, lobits, es)
    ensures j < |es| && Spills(lobits, shape.encodebits, es[j].raw.ctype)
  {
    hide Pow2;
    if !SmallDistances(lobits, es) {
      j :| 0 <= j < |es| && es[j].raw.ctype == NONHEAD && es[j].raw.lo >= Pow2(lobits);
    } else {
      j :| 0 <= j < |es| && Spills(lobits, shape.encodebits, es[j].raw.ctype);
    }
  }

  lemma {:induction false} BaseFits(es: seq<CompactEntry>)
    requires AddressesFit(es)
    ensures BaseOf(es) <= U32_MAX
    decreases |es|
  {
    if es != [] && es[0].raw.ctype == NONHEAD {
      BaseFits(es[1..]);
    }
  }

  /** What a read makes of a head it has cut out. */
  lemma ReadOfHead(g: PackGeom, pack: seq<byte>, i: nat, e: Raw)
    requires |pack| == g.shape.BitstreamLen() + 4 && IsHeadOrPlain(e.ctype)
    requires DecodePackedEntry(g, pack[..g.shape.BitstreamLen()], i) == Ok(e)
    requires ReadFromPack(g, pack, i, false).Ok?
    ensures var nblk := CountSimple(g, pack[..g.shape.BitstreamLen()], i);
            nblk.Ok? && ReadFromPack(g, pack, i, false).value.uRaw == LE(pack[g.shape.BitstreamLen()..]) + nblk.value
  {
    hide DecodePackedEntry, CountSimple, CountBigPcluster, NonheadDelta0, LE;
  }

  /** A head that is cut out intact reads back at the base and the heads in front of it, or not at all. */
  lemma {:induction false} HeadIsCounted(shape: Shape, lobits: nat, es: seq<CompactEntry>, i: nat)
    requires FormatShape(shape) && |es| <= shape.vcnt && ExactPack(lobits, es) && AddressesFit(es)
    requires Decodes(PackGeom(shape, lobits), PackBytes(shape, lobits, es)[..shape.BitstreamLen()], Raws(es))
    requires i < |es| && NoMarkers(es, 0, i) && es[i].raw.ctype != NONHEAD
    ensures var r := ReadFromPack(PackGeom(shape, lobits), PackBytes(shape, lobits, es), i, false);
            r.Ok? ==> r.value.uRaw == BaseOf(es) + 1 + HeadsIn(Raws(es)[..i])
  {
    hide DecodePackedEntry, HeadsIn, HasCblkcnt, CountSimple, DeltasExact, BaseOf, PackBytes, LE, ReadFromPack;
    var g, rs, pack := PackGeom(shape, lobits), Raws(es), PackBytes(shape, lobits, es);
    var bits := pack[..shape.BitstreamLen()];
    assert FieldsFit(lobits, es[i].raw);
    CountSimpleCountsHeads(g, bits, rs, i);
    BaseIsRead(shape, lobits, es);
    if ReadFromPack(g, pack, i, false).Ok? {
      ReadOfHead(g, pack, i, rs[i]);
    }
  }

  lemma BaseIsRead(shape: Shape, lobits: nat, es: seq<CompactEntry>)
    requires AddressesFit(es)
    ensures LE(PackBytes(shape, lobits, es)[shape.BitstreamLen()..]) == BaseOf(es)
  {
    hide Packed, LE, ToLE, BaseOf;
    BaseFits(es);
    assert PackBytes(shape, lobits, es)[shape.BitstreamLen()..] == ToLE(BaseOf(es), 4);
    Pow2Of32();
    LEOfFitting(BaseOf(es), 4);
  }

  /** A pack whose addresses do not count up reads one of them back as another. */
  lemma MiscountedMisreads(shape: Shape, lobits: nat, es: seq<CompactEntry>)
    requires FormatShape(shape) && 12 <= lobits <= 20 && ExactPack(lobits, es) && AddressesFit(es)
    requires |es| == shape.vcnt || (|es| == 1 && shape == COMPACT_4B)
    requires lobits + 2 <= shape.encodebits || HeadsAtZero(es)
    requires SlotsSurvive(shape, lobits, es) && !CountsUp(es)
    ensures !PackReads(shape, lobits, es)
  {
    hide ExactPack, PackBytes, ReadFromPack, Decodes, HasCblkcnt, SlotsSurvive, AddressesFit, HeadsIn, BaseOf, HeadsAtZero;
    SurvivorDecodes(shape, lobits, es);
    var i :| 0 <= i < |es| && es[i].raw.ctype != NONHEAD && es[i].blkaddr != BaseOf(es) + 1 + HeadsIn(Raws(es)[..i]);
    HeadIsCounted(shape, lobits, es, i);
    assert !EntryReadsBack(shape, lobits, es, i);
  }

  /** A pack of the index reads back, entry by entry, exactly when it survives. */
  lemma PackReadsBackIff(shape: Shape, lobits: nat, es: seq<CompactEntry>)
    requires FormatShape(shape) && 12 <= lobits <= 20 && ExactPack(lobits, es) && AddressesFit(es)
    requires |es| == shape.vcnt || (|es| == 1 && shape == COMPACT_4B)
    requires lobits + 2 <= shape.encodebits || HeadsAtZero(es)
    ensures PackReads(shape, lobits, es) <==> PackSurvives(shape, lobits, es)
  {
    hide ExactPack, SlotsSurvive, CountsUp, EntryReadsBack, AddressesFit, HeadsAtZero;
    if !SlotsSurvive(shape, lobits, es) {
      BrokenMisreads(shape, lobits, es);
    } else if !CountsUp(es) {
      MiscountedMisreads(shape, lobits, es);
    } else {
      forall i | 0 <= i < |es|
        ensures EntryReadsBack(shape, lobits, es, i)
      {
        SurvivorReads(shape, lobits, es, i);
      }
    }
  }

  // ----- Addresses that count up

  /** One block to a pcluster, and addresses count up. */
  lemma OneBlockCountsUp(es: seq<CompactEntry>, first: nat)
    requires OneBlockEach(es, first) && first > 0
    ensures CountsUp(es)
  {
    hide OneBlockEach, HeadsIn, BaseOf;
    forall i | 0 <= i < |es| && es[i].raw.ctype != NONHEAD
      ensures es[i].blkaddr == BaseOf(es) + 1 + HeadsIn(Raws(es)[..i])
    {
      BaseIsBeforeFirst(es, first, i);
      BlockOf(es, first, i);
    }
  }

  /** The block address of every HEAD and PLAIN entry, with `m` blocks to a pcluster. */
  ghost predicate BlocksEach(es: seq<CompactEntry>, first: nat, m: nat) {
    forall i :: 0 <= i < |es| && es[i].raw.ctype != NONHEAD ==> es[i].blkaddr == first + HeadsIn(Raws(es)[..i]) * m
  }

  lemma {:induction false} BaseWithBlocks(es: seq<CompactEntry>, i: nat)
    requires i < |es| && es[i].raw.ctype != NONHEAD && HeadsIn(Raws(es)[..i]) == 0
    ensures BaseOf(es) == SatSub(es[i].blkaddr, 1)
    decreases |es|
  {
    hide HeadsIn;
    if i > 0 {
      FrontRaw(es, i - 1);
      HeadsOfConcat([es[0].raw], Raws(es[1..])[..i - 1]);
      OneHead(es[0].raw);
      BaseWithBlocks(es[1..], i - 1);
    }
  }

  /** The first head of a pack that has one. */
  lemma {:induction false} FirstHead(es: seq<CompactEntry>, n: nat) returns (i: nat)
    requires n <= |es| && HeadsIn(Raws(es)[..n]) > 0
    ensures i < n && es[i].raw.ctype != NONHEAD && HeadsIn(Raws(es)[..i]) == 0
    decreases n
  {
    var m: nat := n - 1;
    assert Raws(es)[..n][..m] == Raws(es)[..m];
    if HeadsIn(Raws(es)[..m]) > 0 {
      i := FirstHead(es, m);
    } else {
      i := m;
    }
  }

  /** With more blocks than one to a pcluster they do so only if no pack has a second head. */
  lemma SeveralBlocksCountUpIff(es: seq<CompactEntry>, first: nat, m: nat)
    requires BlocksEach(es, first, m) && first > 0 && m >= 2
    ensures CountsUp(es) <==> forall i :: 0 <= i < |es| && es[i].raw.ctype != NONHEAD ==> HeadsIn(Raws(es)[..i]) == 0
  {
    hide HeadsIn, BaseOf;
    forall i | 0 <= i < |es| && es[i].raw.ctype != NONHEAD
      ensures es[i].blkaddr == BaseOf(es) + 1 + HeadsIn(Raws(es)[..i]) <==> HeadsIn(Raws(es)[..i]) == 0
    {
      var h := i;
      if HeadsIn(Raws(es)[..i]) > 0 {
        h := FirstHead(es, i);
      }
      BaseWithBlocks(es, h);
      MulMono(2, m, HeadsIn(Raws(es)[..i]));
    }
  }

  /**
   The condition spelled out for a whole pack of planned entries: with one bit too few it
   holds no NONHEAD, with two or more it holds nothing but uncompressed lclusters.
   */
  lemma WidePackSurvives(shape: Shape, lobits: nat, es: seq<CompactEntry>)
    requires FormatShape(shape) && 12 <= lobits && lobits + 2 > shape.encodebits && |es| == shape.vcnt
    requires forall i :: 0 <= i < |es| ==> es[i].raw.ctype == PLAIN || es[i].raw.ctype == HEAD1 || es[i].raw.ctype == NONHEAD
    ensures SlotsSurvive(shape, lobits, es)
            <==> forall i :: 0 <= i < |es| ==> es[i].raw.ctype == PLAIN || (lobits + 1 == shape.encodebits && es[i].raw.ctype == HEAD1)
  {
    hide Pow2;
    assert forall i :: 0 <= i < |es| ==>
      (Spills(lobits, shape.encodebits, es[i].raw.ctype)
       <==> !(es[i].raw.ctype == PLAIN || (lobits + 1 == shape.encodebits && es[i].raw.ctype == HEAD1)));
    if forall i :: 0 <= i < |es| ==> !Spills(lobits, shape.encodebits, es[i].raw.ctype) {
      assert SmallDistances(lobits, es);
    }
  }

  /** The least of them: in 2B packs of 8 KiB lclusters a head with one more lcluster reads back as type 3. */
  lemma TwoLclustersMisread(first: nat)
    requires 0 < first <= U32_MAX
    ensures var es := [CompactEntry(Raw(HEAD1, 0), first), CompactEntry(Raw(NONHEAD, 1), 0)];
            && WellFormedPack(13, es, first)
            && var r := ReadFromPack(PackGeom(COMPACT_2B, 13), PackBytes(COMPACT_2B, 13, es), 0, false);
               r.Ok? && r.value.ctype == HEAD2
  {
    hide Bit, Packed, DecodePackedEntry, ToLE, EntryValue, BaseOf, Shr, Low, LE, PackBytes, Pow2;
    var es := [CompactEntry(Raw(HEAD1, 0), first), CompactEntry(Raw(NONHEAD, 1), 0)];
    var rs, pack := Raws(es), PackBytes(COMPACT_2B, 13, es);
    assert rs[..0] == [];
    Pow2Mono(12, 13);
    Pow2Of12();
    assert FieldsFit(13, es[0].raw) && FieldsFit(13, es[1].raw);
    BaseReadsBack(COMPACT_2B, 13, es, first, 0);
    PackBits(COMPACT_2B, 13, es);
    TwoLclustersType(rs);
  }

  lemma PackBits(shape: Shape, lobits: nat, es: seq<CompactEntry>)
    ensures PackBytes(shape, lobits, es)[..shape.BitstreamLen()] == ToLE(Packed(shape.encodebits, lobits, Raws(es)), shape.BitstreamLen())
  {
    hide ToLE, Packed;
  }

  lemma TwoLclustersType(rs: seq<Raw>)
    requires rs == [Raw(HEAD1, 0), Raw(NONHEAD, 1)]
    ensures var r := DecodePackedEntry(PackGeom(COMPACT_2B, 13), ToLE(Packed(14, 13, rs), 28), 0);
            r.Ok? && r.value.ctype == HEAD2
  {
    hide Bit, Packed, DecodePackedEntry, ToLE, EntryValue, Shr, Low;
    var n := DecodedBits(PackGeom(COMPACT_2B, 13), rs, 0);
    EntryBit(13, rs[0], 13);
    assert Contributes(14, 13, rs, 0, 13);
    PackedBit(14, 13, rs, 13);
    TypeBit(1, 0);
    EntryBit(13, rs[1], 0);
    assert Contributes(14, 13, rs, 1, 14);
    PackedBit(14, 13, rs, 14);
    assert Bit(n, 13) && Bit(n, 14);
    TwoBits(n, 13);
  }

  // ----- The whole index

  /** A whole number of packs has no pack that goes over its end. */
  lemma WholePack(i: nat, m: nat, vcnt: nat)
    requires (vcnt == 2 || vcnt == 16) && i < m && m % vcnt == 0
    ensures i - Intra(i, vcnt) + vcnt <= m
  {
  }

  lemma AtMostOne(i: nat, vcnt: nat, n: nat, start: nat)
    requires vcnt == 2 && start <= i < n
    ensures var lo := i - Intra(i - start, vcnt); Min(lo + vcnt, n) - lo == vcnt || Min(lo + vcnt, n) - lo == 1
  {
  }

  /** Packs are whole, but perhaps for a single entry at the end of the index. */
  lemma WholeUnlessLast(r: Regions, n: nat, i: nat, lo: nat, hi: nat)
    requires GoodRegions(r, n) && i < n && PackAround(r, n, i, lo, hi)
    ensures SpanOf(r, n, i, lo, hi) && lo <= i < hi <= n
  {
    hide DivCeil, PackIdx, Intra, Shape.BytesFor;
    var mid, end := r.initial, r.initial + r.middle;
    LocatedIn(r, i);
    if i < mid {
      AtMostOne(i, 2, n, 0);
      if mid < n {
        WholePack(i, mid, 2);
      }
    } else if i < end {
      WholePack(i - mid, r.middle, 16);
    } else {
      AtMostOne(i, 2, n, end);
    }
  }

  lemma SameSlot(i: nat, k: nat, vcnt: nat)
    requires vcnt > 0 && i - Intra(i, vcnt) <= k < i - Intra(i, vcnt) + vcnt
    ensures PackIdx(k, vcnt) == PackIdx(i, vcnt) && Intra(k, vcnt) == k - (i - Intra(i, vcnt))
  {
    DivModUnique(k, vcnt, i / vcnt, k - (i - i % vcnt));
  }

  /** Entries of one span are located in one pack. */
  lemma SamePack(r: Regions, i: nat, lo: nat, hi: nat, k: nat)
    requires var loc := LocateCompactPack(r, i);
             && lo == i - loc.intra && lo <= i < hi && lo <= k < hi && hi - lo <= loc.shape.vcnt
             && (i < r.initial ==> hi <= r.initial)
             && (r.initial <= i < r.initial + r.middle ==> hi <= r.initial + r.middle)
    ensures LocateCompactPack(r, k) == LocateCompactPack(r, i).(intra := k - lo)
  {
    hide DivCeil, PackIdx, Intra, Shape.BytesFor;
    var mid, end := r.initial, r.initial + r.middle;
    IntraSmall(i, 2);
    if i < mid {
      SameSlot(i, k, 2);
    } else if i < end {
      IntraSmall(i - mid, 16);
      SameSlot(i - mid, k - mid, 16);
    } else {
      IntraSmall(i - end, 2);
      SameSlot(i - end, k - end, 2);
    }
  }

  lemma IntraSmall(i: nat, vcnt: nat)
    requires vcnt > 0
    ensures Intra(i, vcnt) <= i && Intra(i, vcnt) < vcnt
  {
  }

  /** Entries `lo` up to `hi` are the pack entry `i` of `n` lies in. */
  ghost predicate SpanOf(r: Regions, n: nat, i: nat, lo: nat, hi: nat) {
    var loc := LocateCompactPack(r, i);
    && lo == i - loc.intra && lo <= i < hi == Min(lo + loc.shape.vcnt, n)
    && (hi - lo == loc.shape.vcnt || (hi - lo == 1 && loc.shape == COMPACT_4B))
  }

  /** The pack entry `i` lies in survives. */
  ghost predicate Survives(r: Regions, lobits: nat, es: seq<CompactEntry>, i: nat)
    requires i < |es|
  {
    var loc := LocateCompactPack(r, i);
    PackSurvives(loc.shape, lobits, es[i - loc.intra..Min(i - loc.intra + loc.shape.vcnt, |es|)])
  }

  /** Each entry of the span reads back from the index exactly when it does from its pack. */
  ghost predicate ReadsAlike(dev: seq<byte>, r: Regions, shape: Shape, lobits: nat, es: seq<CompactEntry>, lo: nat, hi: nat)
    requires lo <= hi <= |es|
  {
    forall k :: lo <= k < hi ==>
      (ReadLclusterCompact(dev, r, lobits, false, k) == Ok(Expected(es[k]))
       <==> EntryReadsBack(shape, lobits, es[lo..hi], k - lo))
  }

  /** The pack of entry `i`: every entry of it is read out of it. */
  lemma PackOfIndex(dev: seq<byte>, r: Regions, geom: CompactGeom, lobits: nat, es: seq<CompactEntry>, i: nat)
    returns (lo: nat, hi: nat)
    requires geom.TotalIdx() == |es| && (geom.use2bMiddle <==> geom.middle > 0)
    requires r.initial == geom.initial && r.middle == geom.middle && GoodRegions(r, |es|)
    requires ExactEntries(lobits, es) && AddressesFit(es) && i < |es|
    requires ReadAt(dev, r.start, geom.Bytes()) == Ok(IndexBytes(geom, lobits, es))
    ensures lo <= i < hi <= |es| && SpanOf(r, |es|, i, lo, hi)
    ensures ExactPack(lobits, es[lo..hi]) && AddressesFit(es[lo..hi])
    ensures ReadsAlike(dev, r, LocateCompactPack(r, i).shape, lobits, es, lo, hi)
  {
    hide *;
    var shape := LocateCompactPack(r, i).shape;
    lo, hi := ReadIsFromPack(dev, r, geom, lobits, es, i);
    WholeUnlessLast(r, |es|, i, lo, hi);
    SliceIsExact(lobits, es, lo, hi);
    SliceAddresses(es, lo, hi);
    forall k | lo <= k < hi
      ensures ReadLclusterCompact(dev, r, lobits, false, k) == Ok(Expected(es[k]))
              <==> EntryReadsBack(shape, lobits, es[lo..hi], k - lo)
    {
      EntryOfSpan(dev, r, geom, lobits, es, i, lo, hi, k);
    }
    AlikeIf(dev, r, shape, lobits, es, lo, hi);
  }

  lemma AlikeIf(dev: seq<byte>, r: Regions, shape: Shape, lobits: nat, es: seq<CompactEntry>, lo: nat, hi: nat)
    requires lo <= hi <= |es|
    requires forall k :: lo <= k < hi ==>
      (ReadLclusterCompact(dev, r, lobits, false, k) == Ok(Expected(es[k]))
       <==> EntryReadsBack(shape, lobits, es[lo..hi], k - lo))
    ensures ReadsAlike(dev, r, shape, lobits, es, lo, hi)
  {
  }

  lemma EntryOfSpan(dev: seq<byte>, r: Regions, geom: CompactGeom, lobits: nat, es: seq<CompactEntry>, i: nat, lo: nat, hi: nat, k: nat)
    requires geom.TotalIdx() == |es| && (geom.use2bMiddle <==> geom.middle > 0)
    requires r.initial == geom.initial && r.middle == geom.middle && GoodRegions(r, |es|)
    requires ReadAt(dev, r.start, geom.Bytes()) == Ok(IndexBytes(geom, lobits, es))
    requires i < |es| && hi <= |es| && SpanOf(r, |es|, i, lo, hi) && lo <= k < hi
    ensures ReadLclusterCompact(dev, r, lobits, false, k) == Ok(Expected(es[k]))
            <==> EntryReadsBack(LocateCompactPack(r, i).shape, lobits, es[lo..hi], k - lo)
  {
    hide ReadLclusterCompact, ReadFromPack, IndexBytes, CompactGeom.Bytes, LocateCompactPack, Expected, PackBytes, GoodRegions;
    RegionEnds(r, |es|, i, lo, hi);
    SamePack(r, i, lo, hi, k);
    var lo2, hi2 := ReadIsFromPack(dev, r, geom, lobits, es, k);
    WholeUnlessLast(r, |es|, k, lo2, hi2);
    assert es[lo..hi][k - lo] == es[k];
  }

  /** A pack does not go over the end of its region. */
  lemma RegionEnds(r: Regions, n: nat, i: nat, lo: nat, hi: nat)
    requires GoodRegions(r, n) && i < n && SpanOf(r, n, i, lo, hi)
    ensures i < r.initial ==> hi <= r.initial
    ensures r.initial <= i < r.initial + r.middle ==> hi <= r.initial + r.middle
  {
    hide DivCeil, PackIdx, Intra, Shape.BytesFor;
    LocatedIn(r, i);
    if i < r.initial < n {
      WholePack(i, r.initial, 2);
    } else if r.initial <= i < r.initial + r.middle {
      WholePack(i - r.initial, r.middle, 16);
    }
  }

  /**
   The compact index reads back, entry by entry, exactly when each of its packs survives:
   whatever the lcluster size and however long the pclusters, for all that the planner
   emits; and with offsets of any kind as long as they fit their slots.
   */
  lemma CompactReadsBackIff(dev: seq<byte>, r: Regions, geom: CompactGeom, lobits: nat, es: seq<CompactEntry>)
    requires geom.TotalIdx() == |es| && (geom.use2bMiddle <==> geom.middle > 0)
    requires r.initial == geom.initial && r.middle == geom.middle && GoodRegions(r, |es|)
    requires 12 <= lobits <= 20 && ExactEntries(lobits, es) && AddressesFit(es)
    requires LobitsFit(geom, lobits) || HeadsAtZero(es)
    requires ReadAt(dev, r.start, geom.Bytes()) == Ok(IndexBytes(geom, lobits, es))
    ensures (forall i :: 0 <= i < |es| ==> ReadLclusterCompact(dev, r, lobits, false, i) == Ok(Expected(es[i])))
            <==> (forall i :: 0 <= i < |es| ==> Survives(r, lobits, es, i))
  {
    hide *;
    if forall i :: 0 <= i < |es| ==> Survives(r, lobits, es, i) {
      forall i | 0 <= i < |es|
        ensures ReadLclusterCompact(dev, r, lobits, false, i) == Ok(Expected(es[i]))
      {
        PackDecides(dev, r, geom, lobits, es, i);
      }
    } else if forall i :: 0 <= i < |es| ==> ReadLclusterCompact(dev, r, lobits, false, i) == Ok(Expected(es[i])) {
      var i :| 0 <= i < |es| && !Survives(r, lobits, es, i);
      PackDecides(dev, r, geom, lobits, es, i);
    }
  }

  /** One pack decides over its entries. */
  lemma PackDecides(dev: seq<byte>, r: Regions, geom: CompactGeom, lobits: nat, es: seq<CompactEntry>, i: nat)
    requires geom.TotalIdx() == |es| && (geom.use2bMiddle <==> geom.middle > 0)
    requires r.initial == geom.initial && r.middle == geom.middle && GoodRegions(r, |es|)
    requires 12 <= lobits <= 20 && ExactEntries(lobits, es) && AddressesFit(es) && i < |es|
    requires LobitsFit(geom, lobits) || HeadsAtZero(es)
    requires ReadAt(dev, r.start, geom.Bytes()) == Ok(IndexBytes(geom, lobits, es))
    ensures Survives(r, lobits, es, i) ==> ReadLclusterCompact(dev, r, lobits, false, i) == Ok(Expected(es[i]))
    ensures (forall k :: 0 <= k < |es| ==> ReadLclusterCompact(dev, r, lobits, false, k) == Ok(Expected(es[k])))
            ==> Survives(r, lobits, es, i)
  {
    hide ExactEntries, ExactPack, AddressesFit, ReadLclusterCompact, IndexBytes, CompactGeom.Bytes, LobitsFit;
    hide LocateCompactPack, Expected, GoodRegions, PackSurvives, EntryReadsBack, HeadsAtZero, Raws;
    var shape := LocateCompactPack(r, i).shape;
    var lo, hi := PackOfIndex(dev, r, geom, lobits, es, i);
    if LobitsFit(geom, lobits) {
      ShapeFits(geom, r, lobits, i);
    } else {
      SliceAtZero(es, lo, hi);
    }
    PackReadsBackIff(shape, lobits, es[lo..hi]);
    if forall k :: 0 <= k < |es| ==> ReadLclusterCompact(dev, r, lobits, false, k) == Ok(Expected(es[k])) {
      forall k | 0 <= k < hi - lo
        ensures EntryReadsBack(shape, lobits, es[lo..hi], k)
      {
        assert ReadLclusterCompact(dev, r, lobits, false, lo + k) == Ok(Expected(es[lo + k]));
      }
    } else if Survives(r, lobits, es, i) {
      assert EntryReadsBack(shape, lobits, es[lo..hi], i - lo);
    }
  }

  lemma SliceAddresses(es: seq<CompactEntry>, lo: nat, hi: nat)
    requires AddressesFit(es) && lo <= hi <= |es|
    ensures AddressesFit(es[lo..hi])
  {
  }

  lemma SliceAtZero(es: seq<CompactEntry>, lo: nat, hi: nat)
    requires HeadsAtZero(es) && lo <= hi <= |es|
    ensures HeadsAtZero(es[lo..hi])
  {
  }

  /** Lclusters that fit their slots and one-block pclusters of at most 2048 of them leave every pack intact. */
  lemma UsualIndexSurvives(geom: CompactGeom, r: Regions, lobits: nat, es: seq<CompactEntry>, first: nat)
    requires LobitsFit(geom, lobits) && r.initial == geom.initial && r.middle == geom.middle
    requires forall i :: 0 <= i < |es| && es[i].raw.ctype == NONHEAD ==> es[i].raw.lo < CBLKCNT
    requires OneBlockEach(es, first) && first > 0
    ensures forall i :: 0 <= i < |es| ==> Survives(r, lobits, es, i)
  {
    hide LocateCompactPack, Pow2, OneBlockEach, CountsUp, HeadsIn;
    Pow2Mono(12, lobits);
    Pow2Of12();
    forall i | 0 <= i < |es|
      ensures Survives(r, lobits, es, i)
    {
      ShapeFits(geom, r, lobits, i);
      var loc := LocateCompactPack(r, i);
      var lo, hi := i - loc.intra, Min(i - loc.intra + loc.shape.vcnt, |es|);
      SliceBlocks(es, first, lo, hi);
      OneBlockCountsUp(es[lo..hi], first + HeadsIn(Raws(es)[..lo]));
    }
  }

  /** The slots of the pack entry `i` lies in survive, and it has no second head. */
  ghost predicate OneHeadSurvives(r: Regions, lobits: nat, es: seq<CompactEntry>, i: nat)
    requires i < |es|
  {
    var loc := LocateCompactPack(r, i);
    var pack := es[i - loc.intra..Min(i - loc.intra + loc.shape.vcnt, |es|)];
    && SlotsSurvive(loc.shape, lobits, pack)
    && forall k :: 0 <= k < |pack| && pack[k].raw.ctype != NONHEAD ==> HeadsIn(Raws(pack)[..k]) == 0
  }

  lemma SliceBlocksEach(es: seq<CompactEntry>, first: nat, m: nat, from: nat, upTo: nat)
    requires BlocksEach(es, first, m) && from <= upTo <= |es|
    ensures BlocksEach(es[from..upTo], first + HeadsIn(Raws(es)[..from]) * m, m)
  {
    hide HeadsIn;
    var slice, rs := es[from..upTo], Raws(es);
    forall j | 0 <= j < |slice| && slice[j].raw.ctype != NONHEAD
      ensures slice[j].blkaddr == first + HeadsIn(rs[..from]) * m + HeadsIn(Raws(slice)[..j]) * m
    {
      assert slice[j] == es[from + j];
      PrefixOfSlice(es, from, upTo, j);
      HeadsOfConcat(rs[..from], Raws(slice)[..j]);
      Distribute(HeadsIn(rs[..from]), HeadsIn(Raws(slice)[..j]), m);
    }
  }

  /** With several blocks to a pcluster a reader counts wrongly from the second head of a pack on. */
  lemma PackOfSeveralBlocks(r: Regions, lobits: nat, es: seq<CompactEntry>, first: nat, m: nat, i: nat)
    requires BlocksEach(es, first, m) && first > 0 && m >= 2 && i < |es|
    ensures Survives(r, lobits, es, i) <==> OneHeadSurvives(r, lobits, es, i)
  {
    hide LocateCompactPack, HeadsIn, CountsUp, BlocksEach, SlotsSurvive;
    var loc := LocateCompactPack(r, i);
    var lo, hi := i - loc.intra, Min(i - loc.intra + loc.shape.vcnt, |es|);
    SliceBlocksEach(es, first, m, lo, hi);
    SeveralBlocksCountUpIff(es[lo..hi], first + HeadsIn(Raws(es)[..lo]) * m, m);
  }
}
