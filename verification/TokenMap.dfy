/** The surface module's token map: longest match first. */
module TokenMap {
  import opened Bits
  import opened Bitstream

  datatype Token = Token(spelling: seq<byte>, value: byte)

  datatype Alphabet = Alphabet(symbols: seq<Token>, bitWidth: nat, lsbFirst: bool)

  predicate Usable(a: Alphabet) {
    a.symbols != [] && 1 <= a.bitWidth <= 8
  }

  predicate SymbolsOk(a: Alphabet) {
    forall j :: 0 <= j < |a.symbols| ==> a.symbols[j].spelling != [] && a.symbols[j].value < Pow2(a.bitWidth)
  }

  predicate Starts(s: seq<byte>, t: Token) {
    t.spelling != [] && t.spelling <= s
  }

  // The longest spelling s starts with, the earliest of equals, among the
  // first n.
  ghost predicate IsBest(a: Alphabet, s: seq<byte>, n: nat, b: nat) {
    && b < n <= |a.symbols| && Starts(s, a.symbols[b])
    && forall j :: 0 <= j < n && Starts(s, a.symbols[j]) ==>
         |a.symbols[j].spelling| < |a.symbols[b].spelling| ||
         (|a.symbols[j].spelling| == |a.symbols[b].spelling| && b <= j)
  }

  lemma BestUnique(a: Alphabet, s: seq<byte>, n: nat, b: nat, c: nat)
    requires IsBest(a, s, n, b) && IsBest(a, s, n, c)
    ensures b == c
  {
  }

  ghost predicate NoneStarts(a: Alphabet, s: seq<byte>, n: nat) {
    n <= |a.symbols| && forall j :: 0 <= j < n ==> !Starts(s, a.symbols[j])
  }

  // The symbols read from s: a best match is taken whole, and a byte where
  // nothing matches is skipped.
  ghost function Parse(a: Alphabet, s: seq<byte>): seq<nat>
    decreases |s|
  {
    if s == [] then []
    else if b: nat :| IsBest(a, s, |a.symbols|, b) then [b] + Parse(a, s[|a.symbols[b].spelling|..])
    else Parse(a, s[1..])
  }

  function SymbolsBits(a: Alphabet, indices: seq<nat>): seq<bool>
    requires forall k :: 0 <= k < |indices| ==> indices[k] < |a.symbols|
  {
    if indices == [] then []
    else SymbolBits(a.symbols[indices[0]].value, a.bitWidth, a.lsbFirst) + SymbolsBits(a, indices[1..])
  }

  lemma {:induction false} ParseIndices(a: Alphabet, s: seq<byte>)
    ensures forall k :: 0 <= k < |Parse(a, s)| ==> Parse(a, s)[k] < |a.symbols|
    ensures |Parse(a, s)| <= |s|
    decreases |s|
  {
    hide IsBest;
    if s != [] {
      if b: nat :| IsBest(a, s, |a.symbols|, b) {
        ParseBest(a, s, b);
        ParseIndices(a, s[|a.symbols[b].spelling|..]);
      } else {
        ParseIndices(a, s[1..]);
      }
    }
  }

  lemma ParseBest(a: Alphabet, s: seq<byte>, b: nat)
    requires s != [] && IsBest(a, s, |a.symbols|, b)
    ensures b < |a.symbols| && 0 < |a.symbols[b].spelling| <= |s|
    ensures Parse(a, s) == [b] + Parse(a, s[|a.symbols[b].spelling|..])
  {
    forall c: nat | IsBest(a, s, |a.symbols|, c)
      ensures c == b
    {
      BestUnique(a, s, |a.symbols|, b, c);
    }
    hide IsBest, Parse;
    ParseChoice(a, s, b);
  }

  lemma ParseChoice(a: Alphabet, s: seq<byte>, b: nat)
    requires s != [] && IsBest(a, s, |a.symbols|, b)
    requires forall c: nat :: IsBest(a, s, |a.symbols|, c) ==> c == b
    ensures b < |a.symbols| && 0 < |a.symbols[b].spelling| <= |s|
    ensures Parse(a, s) == [b] + Parse(a, s[|a.symbols[b].spelling|..])
  {
  }

  lemma ParseSkip(a: Alphabet, s: seq<byte>)
    requires s != [] && NoneStarts(a, s, |a.symbols|)
    ensures Parse(a, s) == Parse(a, s[1..])
  {
  }

  // ----- round trip -----

  function Spell(a: Alphabet, indices: seq<nat>): seq<byte>
    requires forall k :: 0 <= k < |indices| ==> indices[k] < |a.symbols|
  {
    if indices == [] then [] else a.symbols[indices[0]].spelling + Spell(a, indices[1..])
  }

  // No spelling is a prefix of another, or empty.
  ghost predicate PrefixFree(a: Alphabet) {
    && (forall j :: 0 <= j < |a.symbols| ==> a.symbols[j].spelling != [])
    && (forall i, j :: 0 <= i < |a.symbols| && 0 <= j < |a.symbols| && i != j ==>
          !(a.symbols[i].spelling <= a.symbols[j].spelling))
  }

  predicate Indices(a: Alphabet, indices: seq<nat>) {
    forall k :: 0 <= k < |indices| ==> indices[k] < |a.symbols|
  }

  // Symbol j is taken before symbol b where both start.
  predicate TakenBefore(a: Alphabet, j: nat, b: nat)
    requires j < |a.symbols| && b < |a.symbols|
  {
    var t, u := a.symbols[b].spelling, a.symbols[j].spelling;
    |t| < |u| || (|t| == |u| && j < b)
  }

  // No spelling is empty, and where symbol b is spelled nothing that can follow
  // it completes the spelling of a symbol taken before it.
  ghost predicate Unambiguous(a: Alphabet) {
    && (forall j :: 0 <= j < |a.symbols| ==> a.symbols[j].spelling != [])
    && forall b: nat, j: nat, rest: seq<nat> ::
         b < |a.symbols| && j < |a.symbols| && Indices(a, rest) && TakenBefore(a, j, b) ==>
         !(a.symbols[j].spelling <= a.symbols[b].spelling + Spell(a, rest))
  }

  // The alphabets over which parsing undoes every spelling are exactly those.
  lemma RoundTripsExactly(a: Alphabet)
    ensures Unambiguous(a) <==>
            forall indices: seq<nat> :: Indices(a, indices) ==> Parse(a, Spell(a, indices)) == indices
  {
    hide Parse, Spell, Unambiguous;
    if Unambiguous(a) {
      forall indices: seq<nat> | Indices(a, indices)
        ensures Parse(a, Spell(a, indices)) == indices
      {
        UnambiguousParses(a, indices);
      }
    }
    if forall indices: seq<nat> :: Indices(a, indices) ==> Parse(a, Spell(a, indices)) == indices {
      ParsesUnambiguous(a);
    }
  }

  lemma SpellFirst(a: Alphabet, b: nat, rest: seq<nat>)
    requires b < |a.symbols| && Indices(a, rest)
    ensures Indices(a, [b] + rest) && Spell(a, [b] + rest) == a.symbols[b].spelling + Spell(a, rest)
    ensures Spell(a, []) == []
  {
    assert ([b] + rest)[1..] == rest;
  }

  lemma {:induction false} UnambiguousParses(a: Alphabet, indices: seq<nat>)
    requires Unambiguous(a) && Indices(a, indices)
    ensures Parse(a, Spell(a, indices)) == indices
  {
    if indices == [] {
      assert Parse(a, []) == [];
    } else {
      hide Parse, Spell;
      var b, rest := indices[0], indices[1..];
      assert indices == [b] + rest;
      SpellFirst(a, b, rest);
      var t, s := a.symbols[b].spelling, Spell(a, indices);
      assert Indices(a, rest);
      forall j | 0 <= j < |a.symbols| && Starts(s, a.symbols[j])
        ensures |a.symbols[j].spelling| < |t| || (|a.symbols[j].spelling| == |t| && b <= j)
      {
        assert !TakenBefore(a, j, b);
      }
      assert IsBest(a, s, |a.symbols|, b);
      hide IsBest, Unambiguous;
      ParseBest(a, s, b);
      assert s[|t|..] == Spell(a, rest);
      UnambiguousParses(a, rest);
    }
  }

  lemma ParsesUnambiguous(a: Alphabet)
    requires forall indices: seq<nat> :: Indices(a, indices) ==> Parse(a, Spell(a, indices)) == indices
    ensures Unambiguous(a)
  {
    hide Parse, Spell;
    forall j | 0 <= j < |a.symbols|
      ensures a.symbols[j].spelling != []
    {
      SpellFirst(a, j, []);
      assert Indices(a, []) && Indices(a, [j] + []);
      assert Parse(a, Spell(a, [])) == [];
    }
    forall b: nat, j: nat, rest: seq<nat> |
      b < |a.symbols| && j < |a.symbols| && Indices(a, rest) && TakenBefore(a, j, b)
      ensures !(a.symbols[j].spelling <= a.symbols[b].spelling + Spell(a, rest))
    {
      SpellFirst(a, b, rest);
      if a.symbols[j].spelling <= a.symbols[b].spelling + Spell(a, rest) {
        TakenInstead(a, b, j, rest);
      }
    }
  }

  lemma TakenInstead(a: Alphabet, b: nat, j: nat, rest: seq<nat>)
    requires b < |a.symbols| && j < |a.symbols| && Indices(a, rest) && TakenBefore(a, j, b)
    requires a.symbols[j].spelling != []
    requires a.symbols[j].spelling <= a.symbols[b].spelling + Spell(a, rest)
    ensures Parse(a, a.symbols[b].spelling + Spell(a, rest)) != [b] + rest
  {
    hide Parse, Spell;
    var s := a.symbols[b].spelling + Spell(a, rest);
    assert Starts(s, a.symbols[j]);
    var c := BestExists(a, s, |a.symbols|, j);
    ParseBest(a, s, c);
    assert c != b;
    assert Parse(a, s)[0] == c && ([b] + rest)[0] == b;
  }

  lemma {:induction false} BestExists(a: Alphabet, s: seq<byte>, n: nat, j: nat) returns (b: nat)
    requires j < n <= |a.symbols| && Starts(s, a.symbols[j])
    ensures IsBest(a, s, n, b)
  {
    if k: nat :| k < n - 1 && Starts(s, a.symbols[k]) {
      b := BestExists(a, s, n - 1, k);
      if Starts(s, a.symbols[n - 1]) && |a.symbols[n - 1].spelling| > |a.symbols[b].spelling| {
        b := n - 1;
      }
    } else {
      b := j;
    }
  }

  lemma PrefixesNest(t: seq<byte>, u: seq<byte>, s: seq<byte>)
    ensures t <= s && u <= s ==> t <= u || u <= t
  {
  }

  // Prefix-free alphabets are among them.
  lemma SpellingParses(a: Alphabet, indices: seq<nat>)
    requires PrefixFree(a) && Indices(a, indices)
    ensures Unambiguous(a) && Parse(a, Spell(a, indices)) == indices
  {
    forall b: nat, j: nat, rest: seq<nat> |
      b < |a.symbols| && j < |a.symbols| && Indices(a, rest) && TakenBefore(a, j, b)
      ensures !(a.symbols[j].spelling <= a.symbols[b].spelling + Spell(a, rest))
    {
      var t, u := a.symbols[b].spelling, a.symbols[j].spelling;
      assert t <= t + Spell(a, rest);
      PrefixesNest(t, u, t + Spell(a, rest));
    }
    hide PrefixFree;
    UnambiguousParses(a, indices);
  }

  // A spelling may even begin another one, if nothing completes it.
  lemma PrefixAllowed()
    ensures var a := Alphabet([Token([1], 0), Token([1, 2], 1)], 1, false); !PrefixFree(a) && Unambiguous(a)
  {
    var a := Alphabet([Token([1], 0), Token([1, 2], 1)], 1, false);
    assert a.symbols[0].spelling <= a.symbols[1].spelling;
    forall b: nat, j: nat, rest: seq<nat> |
      b < |a.symbols| && j < |a.symbols| && Indices(a, rest) && TakenBefore(a, j, b)
      ensures !(a.symbols[j].spelling <= a.symbols[b].spelling + Spell(a, rest))
    {
      assert b == 0 && j == 1;
      SpellsFromOne(a, rest);
      var s := [1] + Spell(a, rest);
      assert |s| > 1 ==> s[1] == 1 != a.symbols[1].spelling[1];
    }
  }

  lemma SpellsFromOne(a: Alphabet, rest: seq<nat>)
    requires a.symbols == [Token([1], 0), Token([1, 2], 1)] && Indices(a, rest)
    ensures rest != [] ==> Spell(a, rest) != [] && Spell(a, rest)[0] == 1
    ensures rest == [] ==> Spell(a, rest) == []
  {
  }

  // Otherwise the longest match can swallow two symbols.
  lemma LongestMatchSwallows()
    ensures var a := Alphabet([Token([1], 0), Token([1, 2], 1), Token([2], 2)], 2, false);
            Spell(a, [0, 2]) == Spell(a, [1]) && Parse(a, Spell(a, [0, 2])) == [1]
  {
    var a := Alphabet([Token([1], 0), Token([1, 2], 1), Token([2], 2)], 2, false);
    assert Spell(a, [0, 2][1..]) == [2] + Spell(a, []) == [2];
    assert Spell(a, [0, 2]) == [1] + [2] == [1, 2];
    assert Spell(a, [1]) == [1, 2] + Spell(a, [1][1..]) == [1, 2];
    assert IsBest(a, [1, 2], 3, 1);
    ParseBest(a, [1, 2], 1);
    assert Parse(a, []) == [];
  }

  // ----- the decoder -----

  method FindBest(a: Alphabet, s: seq<byte>) returns (ok: bool, best: Option<nat>)
    requires Usable(a)
    ensures ok <==> SymbolsOk(a)
    ensures ok ==> match best
                   case None => NoneStarts(a, s, |a.symbols|)
                   case Some(b) => IsBest(a, s, |a.symbols|, b)
  {
    hide Pow2;
    best := None;
    var j, bestLen := 0, 0;
    while j < |a.symbols|
      invariant 0 <= j <= |a.symbols|
      invariant forall k :: 0 <= k < j ==> a.symbols[k].spelling != [] && a.symbols[k].value < Pow2(a.bitWidth)
      invariant if best.None? then bestLen == 0 && NoneStarts(a, s, j)
                else IsBest(a, s, j, best.value) && bestLen == |a.symbols[best.value].spelling|
    {
      var n := |a.symbols[j].spelling|;
      if n == 0 || a.symbols[j].value >= Pow2(a.bitWidth) {
        return false, best;
      }
      if n > bestLen && n <= |s| && s[..n] == a.symbols[j].spelling {
        best, bestLen := Some(j), n;
      }
      j := j + 1;
    }
    ok := true;
  }

  // A bad symbol is noticed only once there is a byte to match; an output
  // longer than SIZE_MAX bits is cut short.
  method TokenMapDecode(a: Alphabet, input: seq<byte>, output: Bitstream) returns (status: Status)
    requires output.Valid() && output.Bits() == []
    modifies output, output.bytes, output.bytes.data
    ensures output.Valid()
    ensures forall k :: 0 <= k < |Parse(a, input)| ==> Parse(a, input)[k] < |a.symbols|
    ensures var all := SymbolsBits(a, Parse(a, input));
            && status == (if !Usable(a) then Einval else if input == [] then Enotfound
                          else if !SymbolsOk(a) || |all| > SIZE_MAX then Einval
                          else if Parse(a, input) == [] then Enotfound else Ok)
            && (status == Ok ==> output.Bits() == all)
            && (!Usable(a) || !SymbolsOk(a) || status == Enotfound ==> output.Bits() == [])
            && output.Bits() <= all
  {
    hide IsBest, NoneStarts, Parse, SymbolsBits, SymbolBits, SymbolsOk, Packed, Unpack, ReadTo;
    ParseIndices(a, input);
    ParseNothing(a);
    if !Usable(a) {
      return Einval;
    }
    var i := 0;
    ghost var taken: seq<nat> := [];
    ReadNothing(a, input);
    while i < |input|
      invariant i <= |input| && output.Valid() && (i > 0 ==> SymbolsOk(a))
      invariant output.bytes.data == old(output.bytes.data) || fresh(output.bytes.data)
      invariant ReadTo(a, input, i, taken, output.Bits())
      decreases |input| - i
    {
      var ok, best := FindBest(a, input[i..]);
      if !ok {
        ReadSoFar(a, input, i, taken, output.Bits());
        return Einval;
      }
      if best.None? {
        ReadSkip(a, input, i, taken, output.Bits());
        i := i + 1;
      } else {
        var b := best.value;
        ReadBest(a, input, i, taken, output.Bits(), b);
        status := output.AppendBits(a.symbols[b].value, a.bitWidth, a.lsbFirst);
        if status != Ok {
          return status;
        }
        taken := taken + [b];
        i := i + |a.symbols[b].spelling|;
      }
    }
    ReadSoFar(a, input, i, taken, output.Bits());
    status := if output.bitLength != 0 then Ok else Enotfound;
  }

  // After i bytes the symbols `taken` are read and `bits` written for them.
  ghost predicate ReadTo(a: Alphabet, input: seq<byte>, i: nat, taken: seq<nat>, bits: seq<bool>) {
    && i <= |input| && (forall k :: 0 <= k < |taken| ==> taken[k] < |a.symbols|)
    && Parse(a, input) == taken + Parse(a, input[i..])
    && bits == SymbolsBits(a, taken) && (bits == [] <==> taken == [])
  }

  lemma ReadNothing(a: Alphabet, input: seq<byte>)
    ensures ReadTo(a, input, 0, [], [])
  {
    hide Parse;
    ParseNothing(a);
    assert input[0..] == input;
  }

  lemma ReadSkip(a: Alphabet, input: seq<byte>, i: nat, taken: seq<nat>, bits: seq<bool>)
    requires ReadTo(a, input, i, taken, bits) && i < |input| && NoneStarts(a, input[i..], |a.symbols|)
    ensures ReadTo(a, input, i + 1, taken, bits)
  {
    hide Parse, NoneStarts, SymbolsBits;
    ParseSkip(a, input[i..]);
    assert input[i..][1..] == input[i + 1..];
  }

  lemma ReadBest(a: Alphabet, input: seq<byte>, i: nat, taken: seq<nat>, bits: seq<bool>, b: nat)
    requires ReadTo(a, input, i, taken, bits) && i < |input| && IsBest(a, input[i..], |a.symbols|, b)
    requires Usable(a) && forall k :: 0 <= k < |Parse(a, input)| ==> Parse(a, input)[k] < |a.symbols|
    ensures b < |a.symbols| && 0 < |a.symbols[b].spelling| <= |input| - i
    ensures var more := bits + SymbolBits(a.symbols[b].value, a.bitWidth, a.lsbFirst);
            && ReadTo(a, input, i + |a.symbols[b].spelling|, taken + [b], more)
            && bits <= SymbolsBits(a, Parse(a, input)) && |more| <= |SymbolsBits(a, Parse(a, input))|
  {
    hide Parse, IsBest, SymbolsBits, SymbolBits;
    var s := input[i..];
    ParseBest(a, s, b);
    var n := |a.symbols[b].spelling|;
    assert s[n..] == input[i + n..];
    SymbolsAppend(a, taken, b);
    TakenPrefix(a, taken, b, Parse(a, s[n..]), Parse(a, input));
    assert Parse(a, input) == taken + [b] + Parse(a, s[n..]);
  }

  // What is written is a prefix of the whole: nothing at first, all of it at
  // the end.
  lemma ReadSoFar(a: Alphabet, input: seq<byte>, i: nat, taken: seq<nat>, bits: seq<bool>)
    requires ReadTo(a, input, i, taken, bits)
    requires forall k :: 0 <= k < |Parse(a, input)| ==> Parse(a, input)[k] < |a.symbols|
    ensures bits <= SymbolsBits(a, Parse(a, input))
    ensures i == 0 ==> bits == []
    ensures i == |input| ==> bits == SymbolsBits(a, Parse(a, input)) && (bits == [] <==> Parse(a, input) == [])
  {
    hide Parse, SymbolsBits;
    var more := Parse(a, input[i..]);
    assert forall k :: 0 <= k < |more| ==> more[k] == Parse(a, input)[|taken| + k];
    SymbolsConcat(a, taken, more);
    assert i == 0 ==> input[i..] == input;
    if i == |input| {
      ParseNothing(a);
      assert input[i..] == [] && taken + [] == taken;
    }
  }

  lemma TakenPrefix(a: Alphabet, taken: seq<nat>, b: nat, more: seq<nat>, all: seq<nat>)
    requires all == taken + ([b] + more) && forall k :: 0 <= k < |all| ==> all[k] < |a.symbols|
    ensures b < |a.symbols| && forall k :: 0 <= k < |taken| ==> taken[k] < |a.symbols|
    ensures SymbolsBits(a, taken) <= SymbolsBits(a, taken + [b]) <= SymbolsBits(a, all)
  {
    hide SymbolsBits, SymbolBits;
    var read := taken + [b];
    assert all == read + more;
    InRange(read, more, |a.symbols|);
    assert read[|taken|] == b;
    InRange(taken, [b], |a.symbols|);
    SymbolsAppend(a, taken, b);
    SymbolsConcat(a, read, more);
  }

  lemma InRange(x: seq<nat>, y: seq<nat>, limit: nat)
    requires forall k :: 0 <= k < |x + y| ==> (x + y)[k] < limit
    ensures forall k :: 0 <= k < |x| ==> x[k] < limit
    ensures forall k :: 0 <= k < |y| ==> y[k] < limit
  {
    assert forall k :: 0 <= k < |x| ==> x[k] == (x + y)[k];
    assert forall k :: 0 <= k < |y| ==> y[k] == (x + y)[|x| + k];
  }

  lemma {:induction false} SymbolsConcat(a: Alphabet, x: seq<nat>, y: seq<nat>)
    requires forall k :: 0 <= k < |x| ==> x[k] < |a.symbols|
    requires forall k :: 0 <= k < |y| ==> y[k] < |a.symbols|
    ensures SymbolsBits(a, x + y) == SymbolsBits(a, x) + SymbolsBits(a, y)
  {
    hide SymbolBits;
    if x == [] {
      assert x + y == y;
    } else {
      assert (x + y)[1..] == x[1..] + y;
      SymbolsConcat(a, x[1..], y);
    }
  }

  lemma ParseNothing(a: Alphabet)
    ensures Parse(a, []) == [] && SymbolsBits(a, []) == []
  {
  }

  lemma {:induction false} SymbolsAppend(a: Alphabet, indices: seq<nat>, b: nat)
    requires b < |a.symbols| && forall k :: 0 <= k < |indices| ==> indices[k] < |a.symbols|
    ensures SymbolsBits(a, indices + [b]) ==
            SymbolsBits(a, indices) + SymbolBits(a.symbols[b].value, a.bitWidth, a.lsbFirst)
  {
    hide SymbolBits;
    if indices == [] {
      assert [b][1..] == [];
    } else {
      assert (indices + [b])[1..] == indices[1..] + [b];
      SymbolsAppend(a, indices[1..], b);
    }
  }
}
