/** The in-place scorer that runs the register update over a packed stream. */
module LinearScorer {
  import opened Bits
  import opened Bitstream
  import opened LinearRecurrence
  import opened Scorer

  const MAX_BITS: nat := 1024

  method Discrepancy(stream: Bitstream, connection: array<bool>, index: nat, length: nat) returns (d: bool)
    requires stream.Valid() && index < stream.bitLength
    requires length <= index && length < connection.Length
    requires connection[0]
    ensures d == Fails(connection[..], length, stream.Bits(), index)
  {
    d := stream.Bit(index);
    ghost var c, s := connection[..], stream.Bits();
    assert Dot(c, s, index, 0) == false;
    var j := 1;
    while j <= length
      invariant 1 <= j <= length + 1
      invariant d == Dot(c, s, index, j)
    {
      d := d != (connection[j] && stream.Bit(index - j));
      j := j + 1;
    }
  }

  method Copy(from: array<bool>, to: array<bool>)
    requires from.Length == to.Length && from != to
    modifies to
    ensures to[..] == from[..]
  {
    var j := 0;
    while j < to.Length
      invariant j <= to.Length && to[..j] == from[..j]
    {
      to[j] := from[j];
      j := j + 1;
    }
  }

  method AddShifted(connection: array<bool>, previous: array<bool>, shift: nat)
    requires connection.Length == previous.Length && connection != previous
    modifies connection
    ensures connection[..] == Combine(old(connection[..]), previous[..], shift)
  {
    var j := shift;
    while j < connection.Length
      invariant shift <= j && (j <= connection.Length || j == shift)
      invariant forall k :: 0 <= k < connection.Length ==>
        connection[k] == (old(connection[k]) != (shift <= k < j && previous[k - shift]))
    {
      connection[j] := connection[j] != previous[j - shift];
      j := j + 1;
    }
  }

  // The register update after a discrepancy at `index`.
  method Update(connection: array<bool>, previous: array<bool>, saved: array<bool>,
                index: nat, length: nat, shift: nat) returns (length': nat, shift': nat)
    requires connection.Length == previous.Length == saved.Length
    requires connection != previous && connection != saved && previous != saved
    modifies connection, previous, saved
    ensures connection[..] == Combine(old(connection[..]), old(previous[..]), shift)
    ensures if 2 * length <= index
            then previous[..] == old(connection[..]) && length' == index + 1 - length && shift' == 1
            else previous[..] == old(previous[..]) && length' == length && shift' == shift + 1
  {
    Copy(connection, saved);
    AddShifted(connection, previous, shift);
    if 2 * length <= index {
      length' := index + 1 - length;
      Copy(saved, previous);
      shift' := 1;
    } else {
      length' := length;
      shift' := shift + 1;
    }
  }

  // One iteration, for stream bits s of which `connection.Length` are assessed.
  method Advance(stream: Bitstream, connection: array<bool>, previous: array<bool>, saved: array<bool>,
                 index: nat, length: nat, shift: nat, ghost s: seq<bool>) returns (length': nat, shift': nat)
    requires connection.Length == previous.Length == saved.Length == |s|
    requires connection != previous && connection != saved && previous != saved
    requires stream.Valid() && index < |s| <= stream.bitLength && s == stream.Bits()[..|s|]
    requires Invariant(s, index, connection[..], previous[..], length, shift)
    modifies connection, previous, saved
    ensures Invariant(s, index + 1, connection[..], previous[..], length', shift')
  {
    ghost var c, b := connection[..], previous[..];
    var discrepancy := Discrepancy(stream, connection, index, length);
    DotOfPrefix(c, stream.Bits(), |s|, index, length + 1);
    if discrepancy {
      InvariantDiscrepancy(s, index, c, b, length, shift);
      length', shift' := Update(connection, previous, saved, index, length, shift);
    } else {
      InvariantNoDiscrepancy(s, index, c, b, length, shift);
      length', shift' := length, shift + 1;
    }
  }

  // Berlekamp-Massey over the first n bits: the length reached is the linear
  // complexity of that prefix.
  method ShortestRegister(stream: Bitstream, n: nat) returns (length: nat)
    requires stream.Valid() && 0 < n <= stream.bitLength
    ensures length <= n
    ensures IsLinearComplexity(stream.Bits()[..n], n, length)
  {
    hide Invariant, IsLinearComplexity, Packed, Unpack;
    var connection := new bool[n](_ => false);
    var previous := new bool[n](_ => false);
    var saved := new bool[n](_ => false);
    connection[0], previous[0] := true, true;
    length := 0;
    var shift := 1;
    ghost var s := stream.Bits()[..n];
    assert connection[..] == previous[..];
    InvariantInit(s, connection[..]);
    var index := 0;
    while index < n
      invariant index <= n && stream.Valid() && s == stream.Bits()[..n]
      invariant Invariant(s, index, connection[..], previous[..], length, shift)
    {
      length, shift := Advance(stream, connection, previous, saved, index, length, shift, s);
      index := index + 1;
    }
    InvariantIsMinimal(s, connection[..], previous[..], length, shift);
  }

  lemma {:induction false} DotOfPrefix(c: seq<bool>, s: seq<bool>, n: nat, i: nat, k: nat)
    requires i < n <= |s| && k <= i + 1
    ensures Dot(c, s[..n], i, k) == Dot(c, s, i, k)
  {
    if k != 0 {
      DotOfPrefix(c, s, n, i, k - 1);
    }
  }

  lemma InvariantIsMinimal(s: seq<bool>, c: seq<bool>, previous: seq<bool>, length: nat, shift: nat)
    requires Invariant(s, |s|, c, previous, length, shift)
    ensures length <= |s| && IsLinearComplexity(s, |s|, length)
  {
  }

  method ScorerLinear(stream: Bitstream) returns (result: Option<ScorerResult>)
    requires stream.Readable()
    ensures result.Some? <==> stream.Valid() && stream.bitLength <= SIZE_MAX - 7
    ensures result.Some? ==>
      var r, s := result.value, stream.Bits();
      var n := Min(|s|, MAX_BITS);
      && r.scorer == Linear && r.sourceBits == |s| && r.assessedBits == n
      && IsLinearComplexity(s[..n], n, r.statistic)
      && r.statistic == r.modelParameter <= n
      && r.description == (if n == 0 then 0 else (2 * r.statistic + CeilLog2(n + 1)) * ONE_Q16)
      && r.perBit == (if n == 0 then UINT32_MAX else r.description / n)
      && r.flags == (if |s| < SHORT_BITS then {ShortSample} else {}) + (if |s| > MAX_BITS then {LimitReached} else {})
  {
    hide IsLinearComplexity, CeilLog2, Packed, Unpack, Low;
    var ok := stream.CheckValid();
    if !ok {
      return None;
    }
    var r := ScorerResult(Linear, stream.bitLength, stream.bitLength, 0, 0, 0, 0, {});
    var n := stream.bitLength;
    if n == 0 {
      EmptyComplexity(stream.Bits()[..0]);
      return Some(Finish(r.(flags := {ShortSample})));
    }
    var flags: set<Flag> := {};
    if n > MAX_BITS {
      n := MAX_BITS;
      r := r.(assessedBits := n);
      flags := flags + {LimitReached};
    }
    var length := ShortestRegister(stream, n);
    var width := ComputeCeilLog2(n + 1);
    SmallWidth(n + 1);
    r := r.(statistic := length, modelParameter := if length > UINT32_MAX then UINT32_MAX else length);
    if length > (UINT64_MAX / ONE_Q16 - width) / 2 {
      r := r.(description := UINT64_MAX);
      flags := flags + {ArithmeticClamped};
    } else {
      r := r.(description := (2 * length + width) * ONE_Q16);
    }
    DescriptionRatio(r.description, n, length, width);
    return Some(Finish(r.(flags := flags)));
  }

  lemma DescriptionRatio(description: nat, n: nat, length: nat, width: nat)
    requires 0 < n && length <= n && width <= 11
    requires description == (2 * length + width) * ONE_Q16
    ensures description / n <= UINT32_MAX
  {
    assert description <= 13 * ONE_Q16 * n;
    QuotientBound(description, 13 * ONE_Q16, n);
  }

  lemma QuotientBound(a: nat, q: nat, n: nat)
    requires 0 < n && a <= q * n
    ensures a / n <= q
  {
    var d := a / n;
    assert d * n <= q * n;
  }

  lemma SmallWidth(value: nat)
    requires value <= MAX_BITS + 1
    ensures CeilLog2(value) <= 11
  {
    Pow2Eight();
    assert Pow2(11) == 8 * Pow2(8);
    if CeilLog2(value) > 11 {
      Pow2Monotone(11, CeilLog2(value) - 1);
    }
  }

  lemma EmptyComplexity(s: seq<bool>)
    requires s == []
    ensures IsLinearComplexity(s, 0, 0)
  {
    assert Generates([true], 0, s, 0);
  }

  // A stream that obeys some recurrence of order k is never reported above k.
  lemma RecurrenceBoundsComplexity(s: seq<bool>, c: seq<bool>, order: nat, length: nat)
    requires Generates(c, order, s, |s|) && IsLinearComplexity(s, |s|, length)
    ensures length <= order
  {
  }
}
