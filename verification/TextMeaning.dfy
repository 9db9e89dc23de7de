/** What the text score measures, said of the bytes and not of a running tally. */
module TextMeaning {
  import opened Bits
  import opened PlainText
  import opened Utf8

  datatype Kind = Letter | VowelLetter | Blank | Mark | HighByte | Pair | ListedPair

  predicate IsLetter(c: byte) {
    65 <= c <= 90 || 97 <= c <= 122
  }

  function Small(c: byte): byte {
    if 65 <= c <= 90 then c + 32 else c
  }

  // Two letters that stand in this order as one entry of the list.
  ghost predicate Entry(pairs: string, a: byte, b: byte) {
    exists k: nat :: EntryAt(pairs, k, a, b)
  }

  predicate EntryAt(pairs: string, k: nat, a: byte, b: byte) {
    k < |pairs| / 2 && pairs[2 * k] as int == a && pairs[2 * k + 1] as int == b
  }

  lemma EntryLater(pairs: string, k: nat, a: byte, b: byte)
    requires |pairs| >= 2
    ensures EntryAt(pairs, k + 1, a, b) <==> EntryAt(pairs[2..], k, a, b)
  {
  }

  // The byte at i is of the kind; a pair is counted where its second letter is.
  ghost predicate Counted(kind: Kind, s: seq<byte>, i: nat)
    requires i < |s|
  {
    var c := s[i];
    match kind
    case Letter => IsLetter(c)
    case VowelLetter => Small(c) in {97, 101, 105, 111, 117, 121}
    case Blank => c in {32, 9, 10, 13}
    case Mark => 33 <= c <= 126 && !(48 <= c <= 57) && !IsLetter(c)
    case HighByte => c >= 128
    case Pair => i > 0 && IsLetter(s[i - 1]) && IsLetter(c)
    case ListedPair => i > 0 && IsLetter(s[i - 1]) && IsLetter(c) && Entry(PAIRS, Small(s[i - 1]), Small(c))
  }

  ghost predicate At(kind: Kind, s: seq<byte>, i: nat) {
    i < |s| && Counted(kind, s, i)
  }

  ghost function Positions(kind: Kind, s: seq<byte>): set<nat> {
    set i: nat | i < |s| && At(kind, s, i)
  }

  ghost function Number(kind: Kind, s: seq<byte>): nat {
    |Positions(kind, s)|
  }

  // What is counted at a place depends on nothing after it.
  lemma CountedBefore(kind: Kind, s: seq<byte>, m: nat, i: nat)
    requires i < m <= |s|
    ensures Counted(kind, s, i) <==> Counted(kind, s[..m], i)
  {
    hide Entry;
  }

  lemma NumberStep(kind: Kind, s: seq<byte>)
    requires s != []
    ensures var m := |s| - 1;
            Number(kind, s) == Number(kind, s[..m]) + (if Counted(kind, s, m) then 1 else 0)
  {
    hide Counted;
    var m := |s| - 1;
    var before := Positions(kind, s[..m]);
    forall i: nat | i < m
      ensures At(kind, s, i) <==> At(kind, s[..m], i)
    {
      CountedBefore(kind, s, m, i);
    }
    assert Positions(kind, s) == if Counted(kind, s, m) then before + {m} else before;
  }

  lemma EntryEnds(pairs: string, a: byte, b: byte)
    ensures |pairs| >= 2 ==> (EntryAt(pairs, 0, a, b) <==> pairs[0] as int == a && pairs[1] as int == b)
    ensures |pairs| < 2 ==> !Entry(pairs, a, b)
  {
  }

  lemma {:induction false} ListedMeans(pairs: string, a: byte, b: byte)
    ensures PairListed(pairs, a, b) <==> Entry(pairs, a, b)
  {
    hide EntryAt;
    EntryEnds(pairs, a, b);
    if |pairs| >= 2 {
      var rest := pairs[2..];
      ListedMeans(rest, a, b);
      if Entry(rest, a, b) {
        var k: nat :| EntryAt(rest, k, a, b);
        EntryLater(pairs, k, a, b);
      }
      if Entry(pairs, a, b) {
        var k: nat :| EntryAt(pairs, k, a, b);
        if k > 0 {
          EntryLater(pairs, k - 1, a, b);
        }
      }
    }
  }

  // A control byte other than tab, line feed and carriage return.
  predicate ControlByte(c: byte) {
    c == 127 || (c < 32 && c !in {9, 10, 13})
  }

  // The tally is the number of positions of each kind, and there is one
  // exactly when no byte is a control.
  lemma {:induction false} TallyMeans(s: seq<byte>)
    ensures TallyAll(s).Some? <==> forall i :: 0 <= i < |s| ==> !ControlByte(s[i])
    ensures TallyAll(s).Some? ==>
              var t := TallyAll(s).value;
              && t.alpha == Number(Letter, s) && t.vowels == Number(VowelLetter, s)
              && t.whitespace == Number(Blank, s) && t.punctuation == Number(Mark, s)
              && t.high == Number(HighByte, s)
              && t.letterPairs == Number(Pair, s) && t.common == Number(ListedPair, s)
              && t.previous == if s != [] && IsLetter(s[|s| - 1]) then Some(s[|s| - 1]) else None
  {
    hide Entry, PairListed, Counted, Number, TallyByte, ControlByte;
    if s == [] {
      NothingCounted(s);
    } else {
      var m := |s| - 1;
      TallyMeans(s[..m]);
      ControlsStep(s);
      if TallyAll(s[..m]).Some? {
        TallyStep(s);
      }
    }
  }

  lemma ControlsStep(s: seq<byte>)
    requires s != []
    ensures var before := s[..|s| - 1];
            (forall i :: 0 <= i < |s| ==> !ControlByte(s[i])) <==>
            (forall i :: 0 <= i < |before| ==> !ControlByte(before[i])) && !ControlByte(s[|s| - 1])
  {
    hide ControlByte;
    var before := s[..|s| - 1];
    assert forall i :: 0 <= i < |before| ==> before[i] == s[i];
  }

  lemma NothingCounted(s: seq<byte>)
    requires s == []
    ensures forall kind :: Number(kind, s) == 0
  {
    forall kind
      ensures Number(kind, s) == 0
    {
      assert Positions(kind, s) == {};
    }
  }

  // One byte adds one to exactly the kinds it is of.
  lemma TallyStep(s: seq<byte>)
    requires s != [] && TallyAll(s[..|s| - 1]).Some?
    requires var t := TallyAll(s[..|s| - 1]).value;
             t.previous == if |s| > 1 && IsLetter(s[|s| - 2]) then Some(s[|s| - 2]) else None
    ensures var t := TallyAll(s[..|s| - 1]).value;
            var c, next := s[|s| - 1], TallyByte(t, s[|s| - 1]);
            && (next.Some? <==> !ControlByte(c))
            && (next.Some? ==>
                  && Rise(next.value.alpha, t.alpha, Letter, s) && Rise(next.value.vowels, t.vowels, VowelLetter, s)
                  && Rise(next.value.whitespace, t.whitespace, Blank, s)
                  && Rise(next.value.punctuation, t.punctuation, Mark, s) && Rise(next.value.high, t.high, HighByte, s)
                  && Rise(next.value.letterPairs, t.letterPairs, Pair, s)
                  && Rise(next.value.common, t.common, ListedPair, s)
                  && next.value.previous == if IsLetter(c) then Some(c) else None)
  {
    hide Entry, PairListed, TallyAll, Number;
    forall kind
      ensures Number(kind, s) == Number(kind, s[..|s| - 1]) + (if Counted(kind, s, |s| - 1) then 1 else 0)
    {
      NumberStep(kind, s);
    }
    if |s| > 1 {
      ListedMeans(PAIRS, Small(s[|s| - 2]), Small(s[|s| - 1]));
    }
  }

  ghost predicate Rise(after: nat, before: nat, kind: Kind, s: seq<byte>)
    requires s != []
  {
    after - before == Number(kind, s) - Number(kind, s[..|s| - 1])
  }

  // ----- the score -----

  // The encoding of scalars none of which is a C0 or C1 control, save tab,
  // line feed and carriage return.
  ghost predicate Readable(s: seq<byte>) {
    exists cps: seq<Scalar> :: EncodeAll(cps) == s && NoControl(cps)
  }

  predicate NoControl(cps: seq<Scalar>) {
    forall i :: 0 <= i < |cps| ==> (cps[i] >= 32 || cps[i] in {9, 10, 13}) && !(127 <= cps[i] <= 159)
  }

  lemma ReadableIsClean(s: seq<byte>)
    ensures Readable(s) <==> CleanText(s)
  {
    hide EncodeAll;
    if Readable(s) {
      var cps: seq<Scalar> :| EncodeAll(cps) == s && NoControl(cps);
      assert Clean(cps);
    }
    if CleanText(s) {
      var cps: seq<Scalar> :| EncodeAll(cps) == s && Clean(cps);
      assert NoControl(cps);
    }
  }

  // The bytes of readable text hold no control either.
  lemma {:induction false} ReadableBytes(cps: seq<Scalar>, s: seq<byte>)
    requires NoControl(cps) && EncodeAll(cps) == s
    ensures forall i :: 0 <= i < |s| ==> !ControlByte(s[i])
  {
    hide Encode, ControlByte;
    if cps != [] {
      var m := |cps| - 1;
      var before := EncodeAll(cps[..m]);
      ReadableBytes(cps[..m], before);
      ReadableScalar(cps[m]);
      assert s == before + Encode(cps[m]);
    }
  }

  lemma ReadableScalar(cp: Scalar)
    requires (cp >= 32 || cp in {9, 10, 13}) && !(127 <= cp <= 159)
    ensures var s := Encode(cp); forall i :: 0 <= i < |s| ==> !ControlByte(s[i])
  {
  }

  function Points(earned: bool, points: nat): nat {
    if earned then points else 0
  }

  // The score in terms of the bytes alone.
  lemma ScoreMeans(s: seq<byte>)
    ensures var n, r := |s|, PlaintextScore(s);
            var letters, vowels, blanks, marks :=
              Number(Letter, s), Number(VowelLetter, s), Number(Blank, s), Number(Mark, s);
            var pairs, listed := Number(Pair, s), Number(ListedPair, s);
            var many := listed >= 2 && 100 * listed >= 20 * pairs;
            var sum := 40 + Points(n >= 8, 5) + Points(100 * letters >= 45 * n, 10)
                       + Points(letters > 0 && 15 * letters <= 100 * vowels <= 60 * letters, 10)
                       + Points(blanks > 0 && 100 * blanks <= 35 * n, 15)
                       + Points(many, 20) + Points(!many && listed > 0, 10)
                       + Points(100 * marks <= 25 * n, 5);
            && r.score == (if n < 6 || !Readable(s) then 0 else if sum > 100 then 100 else sum)
            && (r.utf8 <==> n >= 6 && Readable(s))
            && (r.ascii <==> r.utf8 && Number(HighByte, s) == 0)
  {
    hide TallyAll, CleanText, Readable, Number, EncodeAll;
    hide ControlByte;
    ReadableIsClean(s);
    TallyMeans(s);
    if Readable(s) {
      ReadableTallies(s);
    }
  }

  lemma ReadableTallies(s: seq<byte>)
    requires Readable(s)
    ensures TallyAll(s).Some?
  {
    hide TallyAll, EncodeAll, ControlByte;
    var cps: seq<Scalar> :| EncodeAll(cps) == s && NoControl(cps);
    ReadableBytes(cps, s);
    TallyMeans(s);
  }
}
