/** Payloads written as choices between two spellings, and what is read back. */
module PairSpelling {
  import opened Bits
  import opened Composite
  import opened Identity
  import opened ImplicitBidi

  // The spelling of each bit, one after the other.
  function Written(p: Pair, bits: seq<bool>): seq<byte> {
    if bits == [] then []
    else Written(p, bits[..|bits| - 1]) + if bits[|bits| - 1] then p.one else p.zero
  }

  // Neither spelling begins the other, and spellings that count at line starts
  // end their line.
  predicate Readable(p: Pair) {
    && Distinctive(p) && !(p.zero <= p.one) && !(p.one <= p.zero)
    && (p.wholeLine ==> p.zero[|p.zero| - 1] == 0x0A && p.one[|p.one| - 1] == 0x0A)
  }

  lemma RegisteredReadable()
    ensures forall i :: 0 <= i < |PAIRS| ==> Readable(PAIRS[i])
    ensures Readable(RECORDS)
  {
    hide Distinctive;
    PairsDistinctive();
    RecordsDistinctive();
    NeitherBegins(PAIRS[0], 0);
    NeitherBegins(PAIRS[1], 0);
    NeitherBegins(PAIRS[2], 0);
    NeitherBegins(PAIRS[3], 2);
    NeitherBegins(PAIRS[4], 0);
    NeitherBegins(RECORDS, 1);
  }

  lemma NeitherBegins(p: Pair, k: nat)
    requires k < |p.zero| && k < |p.one| && p.zero[k] != p.one[k]
    ensures !(p.zero <= p.one) && !(p.one <= p.zero)
  {
  }

  lemma {:induction false} WrittenPrefix(p: Pair, bits: seq<bool>, m: nat)
    requires m < |bits|
    ensures Written(p, bits[..m]) + (if bits[m] then p.one else p.zero) <= Written(p, bits)
    decreases |bits|
  {
    var last := |bits| - 1;
    if m < last {
      assert bits[..last][..m] == bits[..m];
      WrittenPrefix(p, bits[..last], m);
    }
  }

  // The token written at an offset is the token found there.
  lemma WrittenFound(p: Pair, input: seq<byte>, at: nat, bit: bool)
    requires Readable(p) && at <= |input| && (p.wholeLine ==> LineStart(input, at))
    requires Found(input, at, if bit then p.one else p.zero)
    ensures TokenAt(p, input, at) ==
            Some(if bit then Event(SymbolKind, at, |p.one|, 1, 1) else Event(SymbolKind, at, |p.zero|, 0, 1))
  {
    hide Distinctive, LineStart, Found;
    OneBegins(input, at, p.zero, p.one);
  }

  // Of two tokens found at one place, one begins the other.
  lemma OneBegins(input: seq<byte>, at: nat, a: seq<byte>, b: seq<byte>)
    requires at <= |input|
    ensures Found(input, at, a) && Found(input, at, b) ==> a <= b || b <= a
  {
    if Found(input, at, a) && Found(input, at, b) {
      var rest := input[at..];
      assert a == rest[..|a|] && b == rest[..|b|];
    }
  }

  lemma {:induction false} WrittenStarts(p: Pair, bits: seq<bool>)
    requires Readable(p) && p.wholeLine
    ensures LineStart(Written(p, bits), |Written(p, bits)|)
  {
  }

  lemma StartInPrefix(prefix: seq<byte>, input: seq<byte>)
    requires prefix <= input && LineStart(prefix, |prefix|)
    ensures LineStart(input, |prefix|)
  {
  }

  // A bit list written out is read back.
  lemma {:induction false} WrittenReads(p: Pair, bits: seq<bool>, n: nat)
    requires Readable(p) && n <= |bits|
    ensures Written(p, bits[..n]) <= Written(p, bits)
    ensures Concat(Occurrences(p, Written(p, bits), |Written(p, bits[..n])|)) == bits[..n]
    ensures n == |bits| ==> Concat(Occurrences(p, Written(p, bits), |Written(p, bits)|)) == bits
  {
    hide TokenAt, LineStart, Concat, Occurrences, Distinctive;
    TokensPresent(p);
    var input := Written(p, bits);
    assert n == |bits| ==> bits[..n] == bits;
    if n == 0 {
      NothingWritten(p, input);
    } else {
      var m := n - 1;
      WrittenReads(p, bits, m);
      WrittenPrefix(p, bits, m);
      var before, token := Written(p, bits[..m]), if bits[m] then p.one else p.zero;
      assert bits[..n][..m] == bits[..m] && bits[..n] == bits[..m] + [bits[m]];
      assert Written(p, bits[..n]) == before + token;
      var at := |before|;
      if p.wholeLine {
        WrittenStarts(p, bits[..m]);
        StartInPrefix(before, input);
      }
      OneMore(p, input, before, bits[m]);
    }
  }

  // The next token adds its bit.
  lemma OneMore(p: Pair, input: seq<byte>, before: seq<byte>, bit: bool)
    requires Readable(p) && before + (if bit then p.one else p.zero) <= input
    requires p.wholeLine ==> LineStart(input, |before|)
    ensures var next := |before + (if bit then p.one else p.zero)|;
            Concat(Occurrences(p, input, next)) == Concat(Occurrences(p, input, |before|)) + [bit]
  {
    hide TokenAt, LineStart, Concat, Occurrences, Distinctive;
    var at, token := |before|, if bit then p.one else p.zero;
    TokensPresent(p);
    assert input[at..at + |token|] == (before + token)[at..];
    WrittenFound(p, input, at, bit);
    JumpToken(p, input, at);
    ConcatOne(Occurrences(p, input, at), TokenAt(p, input, at).value);
    OneBitOf(bit);
  }

  lemma TokensPresent(p: Pair)
    requires Distinctive(p)
    ensures |p.zero| > 0 && |p.one| > 0
  {
  }

  lemma OneBitOf(bit: bool)
    ensures ToBits(if bit then 1 else 0, 1) == [bit]
  {
  }

  lemma NothingWritten(p: Pair, input: seq<byte>)
    requires |p.zero| > 0 && |p.one| > 0
    ensures Concat(Occurrences(p, input, 0)) == []
  {
  }
}
