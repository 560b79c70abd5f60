/**
 The LZ4 block format, and the decoder that stops when its output is full. `DecodeBlock`
 is the plain decoder of a whole block; `Produced` is everything the sequences of a block
 yield before the first one that is broken or cut off.
 */
module Lz4Prefix {
  import opened Basics

  // ----- The format

  /** Bytes of 255 extend a length, the first other byte ends it. */
  function ExtendedLength(input: seq<byte>, ip: nat, len: nat): (r: Option<(nat, nat)>)
    ensures r.Some? ==> ip < r.value.1 <= |input|
    decreases |input| - ip
  {
    if ip >= |input| then None
    else if input[ip] != 255 then Some((len + input[ip], ip + 1))
    else ExtendedLength(input, ip + 1, len + 255)
  }

  /** A length with nibble `len`, and the position behind it. */
  function LengthOf(input: seq<byte>, ip: nat, len: nat): (r: Option<(nat, nat)>)
    ensures r.Some? ==> ip <= r.value.1 && (ip <= |input| ==> r.value.1 <= |input|)
  {
    if len != 15 then Some((len, ip)) else ExtendedLength(input, ip, len)
  }

  /** `out` with `m` more bytes, each the one `offset` back, which may be one just copied. */
  function WithMatch(out: seq<byte>, offset: nat, m: nat): (s: seq<byte>)
    requires 0 < offset <= |out|
    ensures |s| == |out| + m && s[..|out|] == out
    decreases m
  {
    if m == 0 then out
    else
      var front := WithMatch(out, offset, m - 1);
      front + [front[|front| - offset]]
  }

  datatype Match = Match(offset: nat, len: nat, next: nat)

  /** Where the literals of the sequence at `ip` start and end. */
  function Literals(input: seq<byte>, ip: nat): (r: Option<(nat, nat)>)
    ensures r.Some? ==> ip < r.value.0 <= r.value.1 <= |input|
  {
    if ip >= |input| then None
    else
      match LengthOf(input, ip + 1, input[ip] / 16)
      case None => None
      case Some((len, from)) => if from + len > |input| then None else Some((from, from + len))
  }

  /** The two-byte offset at `at`. */
  function OffsetAt(input: seq<byte>, at: nat): nat
    requires at + 2 <= |input|
  {
    input[at] as int + 256 * input[at + 1] as int
  }

  /** The match behind the literals of the sequence at `ip`, if what is decoded reaches back far enough. */
  function MatchAfter(input: seq<byte>, ip: nat, litEnd: nat, decoded: nat): (r: Option<Match>)
    requires ip < |input|
    ensures r.Some? ==> litEnd < r.value.next <= |input| && 0 < r.value.offset <= decoded && r.value.len >= 4
  {
    if litEnd + 2 > |input| then None
    else
      var offset := OffsetAt(input, litEnd);
      if offset == 0 || offset > decoded then None
      else
        match LengthOf(input, litEnd + 2, input[ip] % 16)
        case None => None
        case Some((len, next)) => Some(Match(offset, len + 4, next))
  }

  /** A whole block: sequences, the last of which is literals to the end of the input. */
  function DecodeBlock(input: seq<byte>, ip: nat, out: seq<byte>): Result<seq<byte>>
    decreases |input| - ip
  {
    match Literals(input, ip)
    case None => Err
    case Some((from, litEnd)) =>
      var more := out + input[from..litEnd];
      if litEnd == |input| then Ok(more)
      else
        match MatchAfter(input, ip, litEnd, |more|)
        case None => Err
        case Some(m) => DecodeBlock(input, m.next, WithMatch(more, m.offset, m.len))
  }

  /** Everything the block yields from `ip` on, behind `out`, before something is missing or wrong. */
  function Produced(input: seq<byte>, ip: nat, out: seq<byte>): (all: seq<byte>)
    ensures out <= all
    decreases |input| - ip
  {
    match Literals(input, ip)
    case None => out
    case Some((from, litEnd)) =>
      var more := out + input[from..litEnd];
      match MatchAfter(input, ip, litEnd, |more|)
      case None => more
      case Some(m) => Produced(input, m.next, WithMatch(more, m.offset, m.len))
  }

  /** What a whole block decodes to is what it yields. */
  lemma {:induction false} WholeBlockIsProduced(input: seq<byte>, ip: nat, out: seq<byte>)
    requires DecodeBlock(input, ip, out).Ok?
    ensures Produced(input, ip, out) == DecodeBlock(input, ip, out).value
    decreases |input| - ip
  {
    hide MatchAfter, Literals, WithMatch;
    var (from, litEnd) := Literals(input, ip).value;
    var more := out + input[from..litEnd];
    if litEnd == |input| {
      NoRoomForMatch(input, ip, |more|);
    } else {
      var m := MatchAfter(input, ip, litEnd, |more|).value;
      WholeBlockIsProduced(input, m.next, WithMatch(more, m.offset, m.len));
    }
  }

  lemma NoRoomForMatch(input: seq<byte>, ip: nat, decoded: nat)
    requires ip < |input|
    ensures MatchAfter(input, ip, |input|, decoded) == None
  {
  }

  // ----- Copies that overlap

  /** The match copy is the only way to extend `out` with bytes that repeat at distance `offset`. */
  lemma {:induction false} MatchIsRepeat(out: seq<byte>, offset: nat, m: nat, s: seq<byte>)
    requires 0 < offset <= |out| && |s| == |out| + m && s[..|out|] == out
    requires forall k :: |out| <= k < |s| ==> s[k] == s[k - offset]
    ensures s == WithMatch(out, offset, m)
    decreases m
  {
    if m == 0 {
      assert s == s[..|out|];
    } else {
      var front := s[..|s| - 1];
      assert front[..|out|] == s[..|out|];
      MatchIsRepeat(out, offset, m - 1, front);
      assert s == front + [s[|s| - 1]];
    }
  }

  /** Stopping a copy early gives a prefix of it. */
  lemma {:induction false} MatchPrefix(out: seq<byte>, offset: nat, take: nat, m: nat)
    requires 0 < offset <= |out| && take <= m
    ensures WithMatch(out, offset, take) <= WithMatch(out, offset, m)
    decreases m
  {
    if take < m {
      MatchPrefix(out, offset, take, m - 1);
    }
  }

  /** The copy of a match, by block when source and target do not overlap, else byte by byte. */
  method CopyMatch(output: array<byte>, op: nat, offset: nat, take: nat)
    requires 0 < offset <= op && op + take <= output.Length
    modifies output
    ensures output[..op + take] == WithMatch(old(output[..op]), offset, take)
  {
    hide WithMatch;
    ghost var was := output[..op];
    if offset >= take {
      forall k | 0 <= k < take {
        output[op + k] := output[op - offset + k];
      }
    } else {
      for k := op to op + take
        invariant output[..op] == was
        invariant forall j :: op <= j < k ==> output[j] == output[j - offset]
      {
        output[k] := output[k - offset];
      }
    }
    assert output[..op + take][..op] == was;
    MatchIsRepeat(was, offset, take, output[..op + take]);
  }

  // ----- The decoder

  /** The nested `length` of `lz4_decode_prefix`. */
  method Length(input: seq<byte>, from: nat, nibble: nat) returns (r: Option<(nat, nat)>)
    ensures r == LengthOf(input, from, nibble)
  {
    var len: nat, ip: nat := nibble, from;
    if len != 15 {
      return Some((len, ip));
    }
    while true
      invariant ip >= from
      invariant ExtendedLength(input, ip, len) == ExtendedLength(input, from, 15)
      decreases |input| - ip
    {
      if ip >= |input| {
        return None;
      }
      var b := input[ip];
      ip := ip + 1;
      len := len + b;
      if b != 255 {
        return Some((len, ip));
      }
    }
  }

  /** The token at `ip` and its literals. */
  method ReadLiterals(input: seq<byte>, ip: nat) returns (r: Option<(nat, nat)>)
    ensures r == Literals(input, ip)
  {
    if ip >= |input| {
      return None;
    }
    var literals := Length(input, ip + 1, input[ip] / 16);
    if literals.None? {
      return None;
    }
    var (len, from) := literals.value;
    if from + len > |input| {
      return None;
    }
    return Some((from, from + len));
  }

  /** The match behind those literals. */
  method ReadMatch(input: seq<byte>, ip: nat, litEnd: nat, op: nat) returns (r: Option<Match>)
    requires ip < |input|
    ensures r == MatchAfter(input, ip, litEnd, op)
  {
    if litEnd + 2 > |input| {
      return None;
    }
    var offset := OffsetAt(input, litEnd);
    if offset == 0 || offset > op {
      return None;
    }
    var matched := Length(input, litEnd + 2, input[ip] % 16);
    if matched.None? {
      return None;
    }
    return Some(Match(offset, matched.value.0 + 4, matched.value.1));
  }

  /** The literal copy: what is decoded grows by `bytes`. */
  method AppendBytes(output: array<byte>, op: nat, bytes: seq<byte>)
    requires op + |bytes| <= output.Length
    modifies output
    ensures output[..op + |bytes|] == old(output[..op]) + bytes
  {
    ghost var was := output[..op];
    CopyFromSlice(output, op, bytes);
    assert output[..][..op + |bytes|] == was + bytes;
  }

  /** One sequence: its literals and its match, as far as there is room. The position behind it, or a refusal. */
  method DecodeSequence(input: seq<byte>, output: array<byte>, ip: nat, op: nat, ghost all: seq<byte>)
    returns (r: Option<(nat, nat)>)
    requires op < output.Length && Produced(input, ip, output[..op]) == all
    modifies output
    ensures r == None ==> |all| < output.Length
    ensures r.Some? ==>
              var (next, done) := r.value;
              && op <= done <= output.Length && output[..done] <= all
              && (done < output.Length ==> ip < next <= |input| && Produced(input, next, output[..done]) == all)
  {
    hide *;
    ghost var out := output[..op];
    ProducedStep(input, ip, out);
    var literals := ReadLiterals(input, ip);
    if literals.None? {
      return None;
    }
    var (from, litEnd) := literals.value;
    LiteralBounds(input, ip);
    ghost var more := out + input[from..litEnd];
    var take := if litEnd - from <= output.Length - op then litEnd - from else output.Length - op;
    AppendBytes(output, op, input[from..from + take]);
    PartOfLiterals(out, input, from, take, litEnd, all);
    if op + take == output.Length {
      return Some((ip, op + take));
    }
    var mid := op + take;
    assert output[..mid] == more;
    var matched := ReadMatch(input, ip, litEnd, mid);
    if matched.None? {
      return None;
    }
    MatchBounds(input, ip, litEnd, mid);
    var done := AppendMatch(output, mid, matched.value, all);
    return Some((matched.value.next, done));
  }

  /** A match behind `mid` bytes, or as much of it as there is room for. */
  method AppendMatch(output: array<byte>, mid: nat, m: Match, ghost all: seq<byte>) returns (done: nat)
    requires 0 < m.offset <= mid < output.Length && WithMatch(output[..mid], m.offset, m.len) <= all
    modifies output
    ensures mid <= done <= output.Length && output[..done] <= all
    ensures done < output.Length ==> output[..done] == WithMatch(old(output[..mid]), m.offset, m.len)
  {
    hide WithMatch;
    ghost var more := output[..mid];
    var take := Min(m.len, output.Length - mid);
    CopyMatch(output, mid, m.offset, take);
    PartOfMatch(more, m.offset, take, m.len, all);
    return mid + take;
  }

  lemma LiteralBounds(input: seq<byte>, ip: nat)
    ensures Literals(input, ip).Some? ==>
              ip < |input| && Literals(input, ip).value.0 <= Literals(input, ip).value.1 <= |input|
  {
    hide LengthOf;
  }

  lemma MatchBounds(input: seq<byte>, ip: nat, litEnd: nat, decoded: nat)
    requires ip < litEnd <= |input|
    ensures var m := MatchAfter(input, ip, litEnd, decoded);
            m.Some? ==> ip < m.value.next <= |input| && 0 < m.value.offset <= decoded
  {
    hide LengthOf;
  }

  lemma PartOfMatch(more: seq<byte>, offset: nat, take: nat, len: nat, all: seq<byte>)
    requires 0 < offset <= |more| && take <= len && WithMatch(more, offset, len) <= all
    ensures WithMatch(more, offset, take) <= all
  {
    hide WithMatch;
    MatchPrefix(more, offset, take, len);
    PrefixOfPrefix(WithMatch(more, offset, take), WithMatch(more, offset, len), all);
  }

  /**
   `lz4_decode_prefix`: it succeeds exactly when the block yields as many bytes as the
   output holds, and then the output is their prefix.
   */
  method DecodePrefix(input: seq<byte>, output: array<byte>) returns (ok: bool)
    modifies output
    ensures ok <==> output.Length <= |Produced(input, 0, [])|
    ensures ok ==> output[..] == Produced(input, 0, [])[..output.Length]
  {
    hide WithMatch, Literals, MatchAfter, Produced;
    var end := output.Length;
    var ip: nat, op: nat := 0, 0;
    ghost var all := Produced(input, 0, []);
    assert output[..0] == [];
    while op < end
      invariant op <= end && output[..op] <= all
      invariant op < end ==> Produced(input, ip, output[..op]) == all
      decreases |input| - ip, end - op
    {
      var sequence := DecodeSequence(input, output, ip, op, all);
      if sequence.None? {
        return false;
      }
      ip, op := sequence.value.0, sequence.value.1;
      if op == end {
        break;
      }
    }
    assert output[..op] == output[..];
    return true;
  }

  lemma PrefixOfPrefix(a: seq<byte>, b: seq<byte>, c: seq<byte>)
    requires a <= b <= c
    ensures a <= c
  {
  }

  /** What one sequence adds. */
  lemma ProducedStep(input: seq<byte>, ip: nat, out: seq<byte>)
    ensures Literals(input, ip) == None ==> Produced(input, ip, out) == out
    ensures Literals(input, ip).Some? ==>
              var (from, litEnd) := Literals(input, ip).value;
              var more := out + input[from..litEnd];
              var m := MatchAfter(input, ip, litEnd, |more|);
              && more <= Produced(input, ip, out)
              && (m == None ==> Produced(input, ip, out) == more)
              && (m.Some? ==> WithMatch(more, m.value.offset, m.value.len) <= Produced(input, ip, out))
              && (m.Some? ==> Produced(input, ip, out) == Produced(input, m.value.next, WithMatch(more, m.value.offset, m.value.len)))
  {
    hide Literals, MatchAfter, WithMatch;
  }

  lemma PartOfLiterals(out: seq<byte>, input: seq<byte>, from: nat, take: nat, litEnd: nat, all: seq<byte>)
    requires from + take <= litEnd <= |input| && out + input[from..litEnd] <= all
    ensures out + input[from..from + take] <= all
  {
    assert input[from..from + take] <= input[from..litEnd];
  }

  /** On a whole block the decoder gives exactly its prefixes. */
  lemma PrefixOfWholeBlock(input: seq<byte>, n: nat)
    requires DecodeBlock(input, 0, []).Ok?
    ensures var whole := DecodeBlock(input, 0, []).value;
            && (n <= |Produced(input, 0, [])| <==> n <= |whole|)
            && (n <= |whole| ==> Produced(input, 0, [])[..n] == whole[..n])
  {
    WholeBlockIsProduced(input, 0, []);
  }
}
