/** The text heuristic and the opaque-data gate the filter scores with. */
module PlainText {
  import opened Bits
  import opened Bitstream
  import opened Fractions
  import opened Kt
  import opened Utf8

  const MIN_BYTES: nat := 6

  predicate ForbiddenControl(cp: nat) {
    (cp <= 0x1F && cp != 9 && cp != 10 && cp != 13) || 0x7F <= cp <= 0x9F
  }

  predicate Clean(cps: seq<Scalar>) {
    forall i :: 0 <= i < |cps| ==> !ForbiddenControl(cps[i])
  }

  // Strict UTF-8 with no forbidden control.
  ghost predicate CleanText(s: seq<byte>) {
    exists cps: seq<Scalar> :: EncodeAll(cps) == s && Clean(cps)
  }

  predicate Alpha(c: byte) {
    65 <= c <= 90 || 97 <= c <= 122
  }

  predicate Punctuation(c: byte) {
    0x21 <= c <= 0x2F || 0x3A <= c <= 0x40 || 0x5B <= c <= 0x60 || 0x7B <= c <= 0x7E
  }

  predicate Vowel(c: byte) {
    var d := Lower(c);
    d == 97 || d == 101 || d == 105 || d == 111 || d == 117 || d == 121
  }

  predicate Whitespace(c: byte) {
    c == 32 || c == 9 || c == 10 || c == 13
  }

  const PAIRS: string :=
    "thheineranreonatennd"
    + "tiesorteofedisitalar"
    + "sttontngsehaasou"
    + "iolevecodemehiriroic"
    + "neearacelichllbemasi"
    + "omurwopa"

  predicate PairListed(pairs: string, a: byte, b: byte) {
    |pairs| >= 2 && ((pairs[0] as int == a && pairs[1] as int == b) || PairListed(pairs[2..], a, b))
  }

  predicate CommonPair(a: byte, b: byte) {
    PairListed(PAIRS, Lower(a), Lower(b))
  }

  // What one pass over the bytes counts.
  datatype Tally = Tally(alpha: nat, vowels: nat, whitespace: nat, punctuation: nat, high: nat,
                         common: nat, letterPairs: nat, previous: Option<byte>)

  const EMPTY: Tally := Tally(0, 0, 0, 0, 0, 0, 0, None)

  // None when a C0 control or DEL is met.
  function TallyByte(t: Tally, c: byte): Option<Tally> {
    if c >= 0x80 then Some(t.(high := t.high + 1, previous := None))
    else if Whitespace(c) then Some(t.(whitespace := t.whitespace + 1, previous := None))
    else if c < 0x20 || c == 0x7F then None
    else if Alpha(c) then
      Some(t.(alpha := t.alpha + 1,
              vowels := t.vowels + (if Vowel(c) then 1 else 0),
              letterPairs := t.letterPairs + (if t.previous.Some? then 1 else 0),
              common := t.common + (if t.previous.Some? && CommonPair(t.previous.value, c) then 1 else 0),
              previous := Some(c)))
    else Some(t.(punctuation := t.punctuation + (if Punctuation(c) then 1 else 0), previous := None))
  }

  function TallyAll(s: seq<byte>): Option<Tally> {
    if s == [] then Some(EMPTY)
    else
      var t := TallyAll(s[..|s| - 1]);
      if t.None? then None else TallyByte(t.value, s[|s| - 1])
  }

  // part / whole >= percent / 100, as a comparison of integers.
  predicate AtLeast(part: nat, whole: nat, percent: nat) {
    100 * part >= percent * whole
  }

  predicate AtMost(part: nat, whole: nat, percent: nat) {
    100 * part <= percent * whole
  }

  function TallyScore(n: nat, t: Tally): (score: nat)
    ensures 40 <= score <= 100
  {
    var score := 40
      + (if n >= 8 then 5 else 0)
      + (if AtLeast(t.alpha, n, 45) then 10 else 0)
      + (if t.alpha > 0 && AtLeast(t.vowels, t.alpha, 15) && AtMost(t.vowels, t.alpha, 60) then 10 else 0)
      + (if t.whitespace > 0 && AtMost(t.whitespace, n, 35) then 15 else 0)
      + (if t.common >= 2 && (t.letterPairs == 0 || AtLeast(t.common, t.letterPairs, 20)) then 20
         else if t.common > 0 then 10 else 0)
      + (if AtMost(t.punctuation, n, 25) then 5 else 0);
    if score > 100 then 100 else score
  }

  // The same score with the fractions computed and compared as rounded
  // quotients, the way the program does.
  ghost function RoundedScore(round: real -> real, n: nat, t: Tally): nat
    requires n > 0
  {
    var vowels := if t.alpha > 0 then round(Quotient(t.vowels, t.alpha)) else 0.0;
    var score := 40
      + (if n >= 8 then 5 else 0)
      + (if round(Quotient(t.alpha, n)) >= round(Quotient(45, 100)) then 10 else 0)
      + (if t.alpha > 0 && vowels >= round(Quotient(15, 100)) && vowels <= round(Quotient(60, 100)) then 10 else 0)
      + (if t.whitespace > 0 && round(Quotient(t.whitespace, n)) <= round(Quotient(35, 100)) then 15 else 0)
      + (if t.common >= 2 && (t.letterPairs == 0 ||
                              round(Quotient(t.common, t.letterPairs)) >= round(Quotient(20, 100))) then 20
         else if t.common > 0 then 10 else 0)
      + (if round(Quotient(t.punctuation, n)) <= round(Quotient(25, 100)) then 5 else 0);
    if score > 100 then 100 else score
  }

  lemma {:induction false} TallyBounds(s: seq<byte>)
    requires TallyAll(s).Some?
    ensures var t := TallyAll(s).value;
            && t.vowels <= t.alpha <= |s| && t.whitespace <= |s| && t.punctuation <= |s|
            && t.common <= t.letterPairs <= |s|
  {
    hide CommonPair, Vowel;
    if s != [] {
      TallyBounds(s[..|s| - 1]);
    }
  }

  // Below 2^45 bytes rounding decides no comparison.
  lemma RoundingIsHarmless(round: real -> real, s: seq<byte>)
    requires RoundsToNearest(round) && 0 < |s| < EXACT && TallyAll(s).Some?
    ensures RoundedScore(round, |s|, TallyAll(s).value) == TallyScore(|s|, TallyAll(s).value)
  {
    hide RoundsToNearest, TallyAll, Quotient;
    TallyBounds(s);
    var n, t := |s|, TallyAll(s).value;
    RoundedAtLeast(round, t.alpha, n, 45);
    if t.alpha > 0 {
      RoundedAtLeast(round, t.vowels, t.alpha, 15);
      RoundedAtMost(round, t.vowels, t.alpha, 60);
    }
    RoundedAtMost(round, t.whitespace, n, 35);
    if t.letterPairs > 0 {
      RoundedAtLeast(round, t.common, t.letterPairs, 20);
    }
    RoundedAtMost(round, t.punctuation, n, 25);
  }

  datatype TextScore = TextScore(score: nat, utf8: bool, ascii: bool)

  ghost function PlaintextScore(s: seq<byte>): (r: TextScore)
    ensures r.score <= 100
    ensures r.score > 0 ==> |s| >= MIN_BYTES
  {
    if |s| < MIN_BYTES || !CleanText(s) then TextScore(0, false, false)
    else
      var t := TallyAll(s);
      if t.None? then TextScore(0, true, false)
      else TextScore(TallyScore(|s|, t.value), true, t.value.high == 0)
  }

  lemma CleanTextUnique(s: seq<byte>, cps: seq<Scalar>)
    requires EncodeAll(cps) == s
    ensures CleanText(s) <==> Clean(cps)
  {
    hide EncodeAll;
    if CleanText(s) {
      var other: seq<Scalar> :| EncodeAll(other) == s && Clean(other);
      if |cps| <= |other| {
        DecodingUnique(cps, other, s);
      } else {
        DecodingUnique(other, cps, s);
        EncodeAllPrefix(other, cps);
      }
    }
  }

  method CheckClean(emitted: seq<ScalarAt>) returns (clean: bool)
    ensures clean == Clean(Values(emitted))
  {
    clean := true;
    var i := 0;
    while i < |emitted|
      invariant 0 <= i <= |emitted|
      invariant clean == Clean(Values(emitted)[..i])
    {
      assert Values(emitted)[..i + 1] == Values(emitted)[..i] + [Values(emitted)[i]];
      if ForbiddenControl(emitted[i].value) {
        assert ForbiddenControl(Values(emitted)[..i + 1][i]);
        clean := false;
      }
      i := i + 1;
    }
    assert Values(emitted)[..i] == Values(emitted);
  }

  method ComputePlaintextScore(input: seq<byte>) returns (r: TextScore)
    ensures r == PlaintextScore(input)
  {
    hide EncodeAll, Clean, TallyByte, TallyScore;
    if |input| < MIN_BYTES {
      return TextScore(0, false, false);
    }
    var status, emitted, at := Foreach(input);
    if status != Ok {
      return TextScore(0, false, false);
    }
    var clean := CheckClean(emitted);
    CleanTextUnique(input, Values(emitted));
    if !clean {
      return TextScore(0, false, false);
    }
    var t := EMPTY;
    var i := 0;
    while i < |input|
      invariant 0 <= i <= |input|
      invariant TallyAll(input[..i]) == Some(t)
    {
      assert input[..i + 1][..i] == input[..i];
      var next := TallyByte(t, input[i]);
      if next.None? {
        TallyStops(input, i + 1);
        return TextScore(0, true, false);
      }
      t := next.value;
      i := i + 1;
    }
    assert input[..i] == input;
    return TextScore(TallyScore(|input|, t), true, t.high == 0);
  }

  lemma TallyStops(s: seq<byte>, n: nat)
    requires n <= |s| && TallyAll(s[..n]) == None
    ensures TallyAll(s) == None
    decreases |s| - n
  {
    hide TallyByte;
    if n < |s| {
      assert s[..n + 1][..n] == s[..n];
      TallyStops(s, n + 1);
    } else {
      assert s[..n] == s;
    }
  }

  // ----- bounds the opaque route relies on -----

  predicate AllHigh(s: seq<byte>) {
    forall i :: 0 <= i < |s| ==> s[i] >= 0x80
  }

  lemma {:induction false} HighTally(s: seq<byte>)
    requires AllHigh(s)
    ensures TallyAll(s) == Some(Tally(0, 0, 0, 0, |s|, 0, 0, None))
  {
    if s != [] {
      HighTally(s[..|s| - 1]);
    }
  }

  // Bytes with no ASCII among them are worth at most 50 as text.
  lemma HighScoresLow(s: seq<byte>)
    requires AllHigh(s)
    ensures PlaintextScore(s).score <= 50
  {
    HighTally(s);
  }

  predicate Printable(s: seq<byte>) {
    forall i :: 0 <= i < |s| ==> 0x20 < s[i] < 0x7F
  }

  lemma {:induction false} PrintableIsClean(s: seq<byte>)
    requires Printable(s)
    ensures CleanText(s) && TallyAll(s).Some?
  {
    hide Encode, EncodeAll, TallyByte, PairListed;
    if s == [] {
      EncodeNothing();
      assert Clean([]);
    } else {
      var m := |s| - 1;
      PrintableIsClean(s[..m]);
      var cps: seq<Scalar> :| EncodeAll(cps) == s[..m] && Clean(cps);
      var cp: Scalar := s[m];
      EncodeAllAppend(cps, cp);
      EncodeOne(cp);
      assert s == s[..m] + [s[m]];
      assert EncodeAll(cps + [cp]) == s && Clean(cps + [cp]);
      PrintableTally(TallyAll(s[..m]).value, s[m]);
    }
  }

  lemma EncodeNothing()
    ensures EncodeAll([]) == []
  {
  }

  lemma PrintableTally(t: Tally, c: byte)
    requires 0x20 < c < 0x7F
    ensures TallyByte(t, c).Some?
  {
    hide CommonPair, Vowel;
  }

  // A printable token of eight bytes or more is worth at least 45.
  lemma PrintableScore(s: seq<byte>)
    requires Printable(s) && |s| >= 8
    ensures PlaintextScore(s).score >= 45
  {
    hide CleanText, TallyAll;
    PrintableIsClean(s);
  }

  // ----- the opaque-data gate -----

  function Distinct(s: seq<byte>): set<byte> {
    set i: nat | i < |s| :: s[i]
  }

  function Ones(s: seq<byte>): nat {
    Count(BytesBits(s), true)
  }

  predicate LooksOpaque(s: seq<byte>, tailOnes: nat, tailBits: nat)
    requires tailBits < 8
  {
    var bits := 8 * |s| + tailBits;
    && |s| >= 16 && |s| <= (SIZE_MAX - tailBits) / 8
    && |Distinct(s)| >= 8
    && bits / 4 <= Ones(s) + tailOnes <= bits - bits / 4
  }

  lemma ByteBelow(b: byte)
    ensures b < Pow2(8)
  {
    Pow2Eight();
  }

  method Popcount(b: byte) returns (n: nat)
    ensures n == Count(ToBits(b, 8), true)
  {
    hide Count, ToBits, Pow2;
    ByteBelow(b);
    n := 0;
    var value: nat, k: nat := b, 8;
    while value != 0
      invariant k <= 8 && value < Pow2(k)
      invariant n + Count(ToBits(value, k), true) == Count(ToBits(b, 8), true)
      decreases value
    {
      ToBitsLast(value, k);
      n := n + value % 2;
      value := value / 2;
      k := k - 1;
    }
    NoOnes(k);
  }

  lemma ToBitsLast(v: nat, k: nat)
    requires 0 < v < Pow2(k)
    ensures k > 0 && v / 2 < Pow2(k - 1)
    ensures Count(ToBits(v, k), true) == Count(ToBits(v / 2, k - 1), true) + v % 2
  {
    CountAppend(ToBits(v / 2, k - 1), v % 2 == 1, true);
  }

  lemma {:induction false} NoOnes(k: nat)
    ensures Count(ToBits(0, k), true) == 0
  {
    if k > 0 {
      NoOnes(k - 1);
      CountAppend(ToBits(0, k - 1), false, true);
    }
  }

  lemma {:induction false} CountConcat(a: seq<bool>, b: seq<bool>, x: bool)
    ensures Count(a + b, x) == Count(a, x) + Count(b, x)
  {
    if b == [] {
      assert a + b == a;
    } else {
      var m := |b| - 1;
      CountConcat(a, b[..m], x);
      assert (a + b)[..|a + b| - 1] == a + b[..m];
    }
  }

  lemma OnesStep(s: seq<byte>, b: byte)
    ensures Ones(s + [b]) == Ones(s) + Count(ToBits(b, 8), true)
    ensures Distinct(s + [b]) == Distinct(s) + {b}
  {
    hide Count, ToBits;
    assert (s + [b])[..|s|] == s;
    CountConcat(BytesBits(s), ToBits(b, 8), true);
    var t := s + [b];
    assert t[|s|] == b;
    forall x | x in Distinct(s)
      ensures x in Distinct(t)
    {
      var i: nat :| i < |s| && s[i] == x;
      assert t[i] == x;
    }
  }

  method ComputeLooksOpaque(input: seq<byte>, tailOnes: nat, tailBits: nat) returns (opaqueLike: bool)
    requires tailBits < 8
    ensures opaqueLike == LooksOpaque(input, tailOnes, tailBits)
  {
    hide Ones, Distinct;
    if |input| < 16 || |input| > (SIZE_MAX - tailBits) / 8 {
      return false;
    }
    var seen := new bool[256](_ => false);
    var unique, ones := 0, 0;
    var i := 0;
    EmptyGate(input[..0]);
    while i < |input|
      invariant 0 <= i <= |input|
      invariant ones == Ones(input[..i]) && unique == |Distinct(input[..i])|
      invariant forall b: byte :: seen[b] <==> b in Distinct(input[..i])
    {
      var b := input[i];
      OnesStep(input[..i], b);
      assert input[..i + 1] == input[..i] + [b];
      var n := Popcount(b);
      ones := ones + n;
      assert b in Distinct(input[..i]) ==> Distinct(input[..i]) + {b} == Distinct(input[..i]);
      if !seen[b] {
        seen[b] := true;
        unique := unique + 1;
      }
      i := i + 1;
    }
    assert input[..i] == input;
    ones := ones + tailOnes;
    var bits := 8 * |input| + tailBits;
    return unique >= 8 && ones >= bits / 4 && ones <= bits - bits / 4;
  }

  lemma EmptyGate(s: seq<byte>)
    requires s == []
    ensures Ones(s) == 0 && Distinct(s) == {}
  {
  }
}
