/** Vocabulary shared by every module: failure, bytes, the device, rounding. */
module Basics {

  /** A byte, as the number it encodes. */
  type byte = b: nat | b < 256

  datatype Option<+T> = None | Some(value: T)

  /** The crate's `Result` with every error folded into one value. */
  datatype Result<+T> = Ok(value: T) | Err {
    predicate IsFailure() {
      Err?
    }

    function PropagateFailure<U>(): Result<U>
      requires Err?
    {
      Err
    }

    function Extract(): T
      requires Ok?
    {
      value
    }
  }

  const U16_MAX: nat := 0xFFFF
  const U32_MAX: nat := 0xFFFF_FFFF

  const SLASH: byte := 47
  const XATTR_ENTRY_ALIGN: nat := 4

  function Min(a: nat, b: nat): nat {
    if a <= b then a else b
  }

  function Max(a: nat, b: nat): nat {
    if a <= b then b else a
  }

  /** `a.saturating_sub(b)`. */
  function SatSub(a: nat, b: nat): nat {
    if a < b then 0 else a - b
  }

  /** `n.div_ceil(d)`. */
  function DivCeil(n: nat, d: nat): nat
    requires d > 0
  {
    (n + d - 1) / d
  }

  /** `n.next_multiple_of(d)`. */
  function AlignUp(n: nat, d: nat): nat
    requires d > 0
  {
    DivCeil(n, d) * d
  }

  function Zeros(n: nat): (s: seq<byte>)
    ensures |s| == n && forall i :: 0 <= i < n ==> s[i] == 0
  {
    seq(n, i => 0)
  }

  /** A device read: all of the range or nothing. */
  function ReadAt(dev: seq<byte>, off: nat, len: nat): Result<seq<byte>> {
    if off + len <= |dev| then Ok(dev[off..off + len]) else Err
  }

  /** Two reads, one behind the other: both or neither. */
  function Both(a: Result<seq<byte>>, b: Result<seq<byte>>): Result<seq<byte>> {
    if a.Ok? && b.Ok? then Ok(a.value + b.value) else Err
  }

  lemma BothAssociates(a: Result<seq<byte>>, b: Result<seq<byte>>, c: Result<seq<byte>>)
    ensures Both(Both(a, b), c) == Both(a, Both(b, c))
  {
    if a.Ok? && b.Ok? && c.Ok? {
      assert (a.value + b.value) + c.value == a.value + (b.value + c.value);
    }
  }

  lemma BothWithNothing(a: Result<seq<byte>>)
    ensures Both(a, Ok([])) == a == Both(Ok([]), a)
  {
    if a.Ok? {
      assert a.value + [] == a.value == [] + a.value;
    }
  }

  /** What a loop that collects has so far, in front of what is still to come. */
  function Prepend<T>(front: seq<T>, rest: Result<seq<T>>): Result<seq<T>> {
    if rest.Ok? then Ok(front + rest.value) else Err
  }

  lemma PrependNone<T>(rest: Result<seq<T>>)
    ensures Prepend([], rest) == rest
  {
    assert rest.Ok? ==> [] + rest.value == rest.value;
  }

  lemma PrependTwice<T>(a: seq<T>, b: seq<T>, rest: Result<seq<T>>)
    ensures Prepend(a, Prepend(b, rest)) == Prepend(a + b, rest)
  {
    if rest.Ok? {
      assert a + (b + rest.value) == (a + b) + rest.value;
    }
  }

  lemma PrependEnd<T>(front: seq<T>)
    ensures Prepend(front, Ok([])) == Ok(front) && Prepend(front, Err) == Err
  {
    assert front + [] == front;
  }

  /** `out[at..at + |bytes|].copy_from_slice(bytes)`. */
  method CopyFromSlice(out: array<byte>, at: nat, bytes: seq<byte>)
    requires at + |bytes| <= out.Length
    modifies out
    ensures out[..] == old(out[..at]) + bytes + old(out[at + |bytes|..])
  {
    forall k | 0 <= k < |bytes| {
      out[at + k] := bytes[k];
    }
  }

  lemma SliceSlice<T>(s: seq<T>, lo: nat, hi: nat, a: nat, b: nat)
    requires lo + b <= hi <= |s| && a <= b
    ensures s[lo..hi][a..b] == s[lo + a..lo + b]
  {
    var t := s[lo..hi];
    assert forall k :: 0 <= k < b - a ==> t[a..b][k] == s[lo + a..lo + b][k];
  }

  lemma SliceJoin<T>(s: seq<T>, lo: nat, a: nat, b: nat)
    requires lo + a + b <= |s|
    ensures s[lo..lo + (a + b)] == s[lo..lo + a] + s[lo + a..lo + a + b]
  {
  }

  /** A slice that starts past the first part of a concatenation. */
  lemma SliceOfTail<T>(a: seq<T>, b: seq<T>, lo: nat, hi: nat)
    requires |a| <= lo <= hi <= |a| + |b|
    ensures (a + b)[lo..hi] == b[lo - |a|..hi - |a|]
  {
  }

  lemma MulStep(p: nat, d: nat)
    ensures (p + 1) * d == p * d + d
  {
  }

  lemma Distribute(a: nat, b: nat, d: nat)
    ensures (a + b) * d == a * d + b * d
  {
  }

  lemma MulMono(a: nat, b: nat, d: nat)
    requires a <= b
    ensures a * d <= b * d
  {
    assert (b - a) * d >= 0;
  }

  /** `q * d <= n < (q + 1) * d` pins the quotient and the remainder. */
  lemma DivModUnique(n: nat, d: nat, q: nat, r: nat)
    requires d > 0 && r < d && n == q * d + r
    ensures n / d == q && n % d == r
  {
    var p := n / d;
    assert n == p * d + n % d;
    assert (q + 1) * d == q * d + d && (p + 1) * d == p * d + d;
    if q < p {
      MulMono(q + 1, p, d);
    } else if p < q {
      MulMono(p + 1, q, d);
    }
  }

  /** The defining property of the ceiling division. */
  lemma DivCeilBounds(n: nat, d: nat)
    requires d > 0
    ensures DivCeil(n, d) * d >= n
    ensures n > 0 ==> DivCeil(n, d) > 0 && (DivCeil(n, d) - 1) * d < n
    ensures n == 0 ==> DivCeil(n, d) == 0
  {
    var q := DivCeil(n, d);
    assert q * d + (n + d - 1) % d == n + d - 1;
    assert (q - 1) * d == q * d - d;
    if n == 0 {
      DivModUnique(d - 1, d, 0, d - 1);
    } else if q == 0 {
      assert false;
    }
  }
}
