/**
 Shifts, masks and bitwise OR on naturals, each by halving, so that every law
 below is an induction over linear facts. `Shr(n, k)` is `n >> k`, `Shl(n, k)` is
 `n << k`, `Low(n, k)` is `n & ((1 << k) - 1)` and `Or(a, b)` is `a | b`.
 A little-endian byte string is the number `LE`; `ToLE` writes one.
 */
module Bits {
  import opened Basics

  function Shr(n: nat, k: nat): nat
    decreases k
  {
    if k == 0 then n else Shr(n / 2, k - 1)
  }

  function Shl(n: nat, k: nat): nat {
    if k == 0 then n else 2 * Shl(n, k - 1)
  }

  function Low(n: nat, k: nat): nat
    decreases k
  {
    if k == 0 then 0 else n % 2 + 2 * Low(n / 2, k - 1)
  }

  function Or(a: nat, b: nat): nat
    decreases a + b
  {
    if a == 0 then b
    else if b == 0 then a
    else (if a % 2 == 1 || b % 2 == 1 then 1 else 0) + 2 * Or(a / 2, b / 2)
  }

  function Pow2(k: nat): (p: nat)
    ensures p > 0
  {
    if k == 0 then 1 else 2 * Pow2(k - 1)
  }

  // ----- Halving steps

  lemma OrHalf(a: nat, b: nat)
    ensures Or(a, b) / 2 == Or(a / 2, b / 2)
    ensures Or(a, b) % 2 == (if a % 2 == 1 || b % 2 == 1 then 1 else 0)
  {
  }

  lemma {:induction false} ShlHalf(n: nat, k: nat)
    requires k > 0
    ensures Shl(n, k) / 2 == Shl(n, k - 1) && Shl(n, k) % 2 == 0
  {
  }

  // ----- Laws

  lemma {:induction false} ShrZero(k: nat)
    ensures Shr(0, k) == 0 && Low(0, k) == 0 && Shl(0, k) == 0
    decreases k
  {
    if k > 0 { ShrZero(k - 1); }
  }

  lemma ShlZero(n: nat)
    ensures Shl(n, 0) == n && Shr(n, 0) == n
  {
  }

  lemma OrZero(a: nat)
    ensures Or(a, 0) == a && Or(0, a) == a
  {
  }

  lemma {:induction false} ShrShr(n: nat, a: nat, b: nat)
    ensures Shr(Shr(n, a), b) == Shr(n, a + b)
    decreases a
  {
    if a > 0 { ShrShr(n / 2, a - 1, b); }
  }

  lemma {:induction false} ShlShl(n: nat, a: nat, b: nat)
    ensures Shl(Shl(n, a), b) == Shl(n, a + b)
    decreases b
  {
    if b > 0 { ShlShl(n, a, b - 1); }
  }

  lemma {:induction false} ShrShl(n: nat, a: nat, b: nat)
    ensures a >= b ==> Shr(Shl(n, a), b) == Shl(n, a - b)
    ensures a <= b ==> Shr(Shl(n, a), b) == Shr(n, b - a)
    decreases b
  {
    if b > 0 && a > 0 {
      ShlHalf(n, a);
      ShrShl(n, a - 1, b - 1);
    }
  }

  lemma {:induction false} LowShl(n: nat, a: nat, k: nat)
    requires a >= k
    ensures Low(Shl(n, a), k) == 0
    decreases k
  {
    if k > 0 {
      ShlHalf(n, a);
      LowShl(n, a - 1, k - 1);
    }
  }

  lemma {:induction false} LowLow(n: nat, a: nat, b: nat)
    ensures Low(Low(n, a), b) == Low(n, if a <= b then a else b)
    decreases a
  {
    if a > 0 && b > 0 {
      assert Low(n, a) / 2 == Low(n / 2, a - 1) && Low(n, a) % 2 == n % 2;
      LowLow(n / 2, a - 1, b - 1);
    } else if a == 0 {
      ShrZero(b);
    }
  }

  lemma {:induction false} ShrLow(n: nat, a: nat, b: nat)
    ensures Shr(Low(n, a + b), a) == Low(Shr(n, a), b)
    decreases a
  {
    if a > 0 {
      assert Low(n, a + b) / 2 == Low(n / 2, a - 1 + b);
      ShrLow(n / 2, a - 1, b);
    }
  }

  /** Nothing survives a shift past the field's width. */
  lemma {:induction false} LowIsSmall(n: nat, a: nat, k: nat)
    requires a <= k
    ensures Shr(Low(n, a), k) == 0
  {
    ShrLow(n, a, 0);
    ShrShr(Low(n, a), a, k - a);
    ShrZero(k - a);
  }

  /** A number with no bits from `k` up is its own low field. */
  lemma {:induction false} LowOfSmall(n: nat, k: nat)
    requires Shr(n, k) == 0
    ensures Low(n, k) == n
    decreases k
  {
    if k > 0 { LowOfSmall(n / 2, k - 1); }
  }

  lemma {:induction false} OrShr(a: nat, b: nat, k: nat)
    ensures Shr(Or(a, b), k) == Or(Shr(a, k), Shr(b, k))
    decreases k
  {
    if k > 0 {
      OrHalf(a, b);
      OrShr(a / 2, b / 2, k - 1);
    }
  }

  lemma {:induction false} OrLow(a: nat, b: nat, k: nat)
    ensures Low(Or(a, b), k) == Or(Low(a, k), Low(b, k))
    decreases k
  {
    if k > 0 {
      OrHalf(a, b);
      OrHalf(Low(a, k), Low(b, k));
      OrLow(a / 2, b / 2, k - 1);
    }
  }

  /** Splitting a number into a low field and the rest loses nothing. */
  lemma {:induction false} Split(n: nat, k: nat)
    ensures n == Low(n, k) + Shl(Shr(n, k), k)
    decreases k
  {
    if k > 0 { Split(n / 2, k - 1); }
  }

  /** A shift is a multiplication. */
  lemma {:induction false} ShlPow2(n: nat, k: nat)
    ensures Shl(n, k) == n * Pow2(k)
    decreases k
  {
    if k > 0 { ShlPow2(n, k - 1); }
  }

  lemma {:induction false} LowBound(n: nat, k: nat)
    ensures Low(n, k) < Pow2(k)
    decreases k
  {
    if k > 0 { LowBound(n / 2, k - 1); }
  }

  lemma {:induction false} SmallShr(n: nat, k: nat)
    requires n < Pow2(k)
    ensures Shr(n, k) == 0
    decreases k
  {
    if k > 0 { SmallShr(n / 2, k - 1); }
  }

  lemma {:induction false} Pow2Add(a: nat, b: nat)
    ensures Pow2(a + b) == Pow2(a) * Pow2(b)
    decreases b
  {
    if b > 0 { Pow2Add(a, b - 1); }
  }

  lemma Pow2Mono(a: nat, b: nat)
    requires a <= b
    ensures Pow2(a) <= Pow2(b)
  {
    Pow2Add(a, b - a);
    MulMono(1, Pow2(b - a), Pow2(a));
  }

  lemma Pow2Of12()
    ensures Pow2(12) == 0x1000
  {
    assert Pow2(6) == 64;
    Pow2Add(6, 6);
  }

  // ----- Single bits

  /** Bit `p` of `n`. */
  predicate Bit(n: nat, p: nat) {
    Shr(n, p) % 2 == 1
  }

  lemma BitOr(a: nat, b: nat, p: nat)
    ensures Bit(Or(a, b), p) <==> Bit(a, p) || Bit(b, p)
  {
    hide Shr, Or;
    OrShr(a, b, p);
    OrHalf(Shr(a, p), Shr(b, p));
  }

  lemma BitShl(n: nat, k: nat, p: nat)
    ensures Bit(Shl(n, k), p) <==> p >= k && Bit(n, p - k)
  {
    hide Shr, Shl;
    ShrShl(n, k, p);
    if p < k { ShlHalf(n, k - p); }
  }

  lemma BitShr(n: nat, k: nat, p: nat)
    ensures Bit(Shr(n, k), p) <==> Bit(n, k + p)
  {
    hide Shr;
    ShrShr(n, k, p);
  }

  lemma BitLow(n: nat, k: nat, p: nat)
    ensures Bit(Low(n, k), p) <==> p < k && Bit(n, p)
  {
    hide Shr, Low;
    if p < k {
      assert k == p + (k - p);
      ShrLow(n, p, k - p);
      LowParity(Shr(n, p), k - p);
    } else {
      LowIsSmall(n, k, p);
    }
  }

  lemma LowParity(n: nat, k: nat)
    requires k > 0
    ensures Low(n, k) % 2 == n % 2
  {
  }

  /** A number without low bits has an empty low field. */
  lemma {:induction false} NoLowBits(n: nat, k: nat)
    requires forall p :: 0 <= p < k ==> !Bit(n, p)
    ensures Low(n, k) == 0
    decreases k
  {
    if k > 0 {
      assert !Bit(n, 0);
      forall p | 0 <= p < k - 1
        ensures !Bit(n / 2, p)
      {
        assert !Bit(n, p + 1);
      }
      NoLowBits(n / 2, k - 1);
    }
  }

  /** A two-bit field, bit by bit. */
  lemma TwoBits(n: nat, p: nat)
    ensures Low(Shr(n, p), 2) == (if Bit(n, p) then 1 else 0) + (if Bit(n, p + 1) then 2 else 0)
  {
    var q := Shr(n, p);
    assert Low(q, 2) == q % 2 + 2 * Low(q / 2, 1) && Low(q / 2, 1) == q / 2 % 2 + 2 * Low(q / 4, 0);
    hide Shr;
    BitShr(n, p, 1);
    assert Shr(q, 1) == q / 2 by { ShrOne(q); }
  }

  lemma ShrOne(q: nat)
    ensures Shr(q, 1) == q / 2
  {
  }

  // ----- Whole bytes

  lemma ByteShift(n: nat)
    ensures Shr(n, 8) == n / 256 && Low(n, 8) == n % 256
  {
    NibbleShift(n);
    NibbleShift(n / 16);
    ShrShr(n, 4, 4);
    Split(n, 8);
    ShlPow2(Shr(n, 8), 8);
    assert Pow2(8) == 2 * 2 * Pow2(6) == 16 * Pow2(4) == 64 * Pow2(2) == 256;
  }

  lemma NibbleShift(n: nat)
    ensures Shr(n, 4) == n / 16
  {
    assert Shr(n, 4) == Shr(n / 2, 3) == Shr(n / 4, 2) == Shr(n / 8, 1);
  }

  /** The low byte, split off a shift or a mask that reaches past it. */
  lemma ByteStep(n: nat, k: nat)
    ensures Shr(n, 8 + k) == Shr(n / 256, k)
    ensures Low(n, 8 + k) == n % 256 + 256 * Low(n / 256, k)
  {
    hide Shr, Low, Shl;
    ByteShift(n);
    ShrShr(n, 8, k);
    var m := Low(n, 8 + k);
    ByteShift(m);
    ShrLow(n, 8, k);
    LowLow(n, 8 + k, 8);
  }

  function LE(s: seq<byte>): nat {
    if s == [] then 0 else s[0] + 256 * LE(s[1..])
  }

  function ToLE(n: nat, len: nat): (s: seq<byte>)
    ensures |s| == len
    decreases len
  {
    if len == 0 then [] else [n % 256] + ToLE(n / 256, len - 1)
  }

  lemma {:induction false} LEShr(s: seq<byte>, k: nat)
    requires k <= |s|
    ensures Shr(LE(s), 8 * k) == LE(s[k..])
    decreases k
  {
    if k == 0 {
      assert s[0..] == s;
      ShlZero(LE(s));
    } else {
      hide Shr, Low;
      ByteStep(LE(s), 8 * (k - 1));
      assert LE(s) / 256 == LE(s[1..]);
      LEShr(s[1..], k - 1);
      assert s[1..][k - 1..] == s[k..];
    }
  }

  /** Past the end of the string there are only zero bits. */
  lemma LEShrPast(s: seq<byte>, k: nat)
    requires 8 * |s| <= k
    ensures Shr(LE(s), k) == 0
  {
    LEShr(s, |s|);
    assert s[|s|..] == [];
    ShrShr(LE(s), 8 * |s|, k - 8 * |s|);
    ShrZero(k - 8 * |s|);
  }

  lemma {:induction false} ToLEAt(n: nat, len: nat, j: nat)
    requires j < len
    ensures ToLE(n, len)[j] == Shr(n, 8 * j) % 256
    decreases j
  {
    if j == 0 {
      ShlZero(n);
    } else {
      hide Shr, Low;
      ByteStep(n, 8 * (j - 1));
      ToLEAt(n / 256, len - 1, j - 1);
    }
  }

  lemma LEAt(s: seq<byte>, j: nat)
    requires j < |s|
    ensures Shr(LE(s), 8 * j) % 256 == s[j]
  {
    LEShr(s, j);
    assert s[j..] != [];
  }

  lemma {:induction false} LEToLE(n: nat, len: nat)
    ensures LE(ToLE(n, len)) == Low(n, 8 * len)
    decreases len
  {
    if len > 0 {
      hide Shr, Low;
      var t := ToLE(n / 256, len - 1);
      assert ToLE(n, len)[1..] == t;
      LEToLE(n / 256, len - 1);
      ByteStep(n, 8 * (len - 1));
    }
  }

  lemma {:induction false} ToLELE(s: seq<byte>)
    ensures ToLE(LE(s), |s|) == s
  {
    if s != [] { ToLELE(s[1..]); }
  }

  /** A number that fits in `len` bytes is read back from them. */
  lemma LEOfFitting(n: nat, len: nat)
    requires n < Pow2(8 * len)
    ensures LE(ToLE(n, len)) == n
  {
    LEToLE(n, len);
    SmallShr(n, 8 * len);
    LowOfSmall(n, 8 * len);
  }
}
