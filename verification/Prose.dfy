/** Which byte strings can read as text in several bit readings at once. */
module Prose {
  import opened Bits
  import opened Utf8
  import opened PlainText
  import opened FilterSpec
  import opened FilterVerdict

  // ----- what a text score of 75 or more takes -----

  // Scores come in fives.
  lemma ScoreInFives(s: seq<byte>)
    ensures PlaintextScore(s).score % 5 == 0
  {
    hide CleanText, TallyAll;
  }

  predicate HasWhitespace(s: seq<byte>) {
    exists i :: 0 <= i < |s| && Whitespace(s[i])
  }

  predicate LettersAt(s: seq<byte>, i: nat) {
    i + 1 < |s| && Alpha(s[i]) && Alpha(s[i + 1])
  }

  ghost predicate HasLetterPair(s: seq<byte>) {
    exists i: nat :: LettersAt(s, i)
  }

  lemma {:induction false} TallyNeeds(s: seq<byte>)
    requires TallyAll(s).Some?
    ensures var t := TallyAll(s).value;
            && (t.whitespace > 0 ==> HasWhitespace(s))
            && (t.common > 0 ==> HasLetterPair(s))
            && (t.previous.Some? ==> s != [] && Alpha(s[|s| - 1]))
    ensures forall i :: 0 <= i < |s| && s[i] < 0x20 ==> Whitespace(s[i])
  {
    if s != [] {
      var m := |s| - 1;
      TallyNeeds(s[..m]);
      var t := TallyAll(s[..m]).value;
      StepNeeds(t, s[m]);
      hide TallyAll, TallyByte, Whitespace, Alpha;
      if HasWhitespace(s[..m]) {
        var i :| 0 <= i < m && Whitespace(s[..m][i]);
        assert s[i] == s[..m][i];
      }
      if HasLetterPair(s[..m]) {
        var i: nat :| LettersAt(s[..m], i);
        assert LettersAt(s, i);
      }
      if t.previous.Some? && Alpha(s[m]) {
        assert LettersAt(s, m - 1);
      }
      assert Whitespace(s[m]) ==> HasWhitespace(s);
      forall i | 0 <= i < |s| && s[i] < 0x20
        ensures Whitespace(s[i])
      {
        assert i < m ==> s[..m][i] == s[i];
      }
    }
  }

  lemma StepNeeds(t: Tally, c: byte)
    ensures var u := TallyByte(t, c);
            u.Some? ==>
              && (u.value.whitespace > t.whitespace ==> Whitespace(c))
              && (u.value.common > t.common ==> t.previous.Some? && Alpha(c))
              && (u.value.previous.Some? ==> Alpha(c))
              && (c < 0x20 ==> Whitespace(c))
  {
    hide CommonPair, Vowel;
  }

  // Without a blank or two letters in a row, at most 70.
  lemma ProseNeeds(s: seq<byte>)
    requires PlaintextScore(s).score > 70
    ensures HasWhitespace(s) || HasLetterPair(s)
  {
    hide CleanText, HasWhitespace, HasLetterPair;
    TallyNeeds(s);
  }

  // Text of any score is valid and has no control but a blank.
  lemma TextHas(s: seq<byte>)
    requires PlaintextScore(s).score > 0
    ensures s != [] && ValidUtf8(s)
    ensures forall i :: 0 <= i < |s| && s[i] < 0x20 ==> Whitespace(s[i])
  {
    TallyNeeds(s);
    hide TallyAll, EncodeAll;
    var cps: seq<Scalar> :| EncodeAll(cps) == s && Clean(cps);
  }

  // ----- facts about valid UTF-8 -----

  lemma EncodeShape(cp: Scalar)
    ensures var e := Encode(cp);
            && e[0] <= 0xF4 && e[0] / 64 != 2
            && (forall k :: 1 <= k < |e| ==> e[k] / 64 == 2)
            && (|e| >= 3 ==> e[0] >= 0xE0)
  {
    EncodingWellFormed(cp, []);
    assert Encode(cp) + [] == Encode(cp);
    hide Encode;
  }

  // No byte above 0xF4; the first byte begins a sequence; two continuation
  // bytes in a row are behind a lead byte of three or more.
  lemma {:induction false} ValidShape(cps: seq<Scalar>, i: nat)
    requires i < |EncodeAll(cps)|
    ensures var s := EncodeAll(cps);
            && s[i] <= 0xF4
            && (i == 0 ==> s[i] / 64 != 2)
            && (i + 1 < |s| && s[i] / 64 == 2 && s[i + 1] / 64 == 2 ==> exists j: nat :: j < i && s[j] >= 0xE0)
  {
    hide Encode;
    var m := |cps| - 1;
    var s, before, e := EncodeAll(cps), EncodeAll(cps[..m]), Encode(cps[m]);
    var k := |before|;
    assert s == before + e;
    hide EncodeAll;
    EncodeShape(cps[m]);
    if i >= k {
      assert s[i] == e[i - k];
      assert i + 1 < |s| ==> s[i + 1] == e[i + 1 - k];
      assert s[k] == e[0];
    } else {
      ValidShape(cps[..m], i);
      assert s[i] == before[i];
      if i + 1 == k {
        assert i + 1 < |s| ==> s[i + 1] == e[0];
      } else {
        assert s[i + 1] == before[i + 1];
        if s[i] / 64 == 2 && s[i + 1] / 64 == 2 {
          var j: nat :| j < i && before[j] >= 0xE0;
          assert s[j] == before[j];
        }
      }
    }
  }

  lemma ValidFacts(s: seq<byte>, i: nat)
    requires ValidUtf8(s) && i < |s|
    ensures s[i] <= 0xF4 && (i == 0 ==> s[i] / 64 != 2)
    ensures i + 1 < |s| && s[i] / 64 == 2 && s[i + 1] / 64 == 2 ==> exists j: nat :: j < i && s[j] >= 0xE0
  {
    hide EncodeAll;
    var cps: seq<Scalar> :| EncodeAll(cps) == s;
    ValidShape(cps, i);
  }

  // ----- text in several readings -----

  // If bytes worth 75 as text also read as text inverted and reversed, they
  // contain a carriage return.
  lemma ProseNeedsReturn(s: seq<byte>, inverted: seq<byte>, reversed: seq<byte>) returns (i: nat)
    requires PlaintextScore(s).score >= 75
    requires inverted == VaryBytes(s, false, true) && PlaintextScore(inverted).score > 0
    requires reversed == VaryBytes(s, true, false) && PlaintextScore(reversed).score > 0
    ensures i < |s| && s[i] == 13
  {
    hide PlaintextScore, VaryBytes, ValidUtf8, VaryByte;
    ProseNeeds(s);
    TextHas(s);
    TextHas(inverted);
    TextHas(reversed);
    i := BlankIn(s, inverted);
    InvertedAt(s, inverted, i);
    ReversedAt(s, reversed, i);
    ValidFacts(inverted, i);
    ReversedBlank();
  }

  lemma BlankIn(s: seq<byte>, inverted: seq<byte>) returns (i: nat)
    requires HasWhitespace(s) || HasLetterPair(s)
    requires forall i :: 0 <= i < |s| && s[i] < 0x20 ==> Whitespace(s[i])
    requires inverted == VaryBytes(s, false, true) && ValidUtf8(inverted)
    ensures i < |s| && Whitespace(s[i])
  {
    hide VaryBytes, ValidUtf8;
    if HasWhitespace(s) {
      i :| 0 <= i < |s| && Whitespace(s[i]);
    } else {
      var k: nat :| LettersAt(s, k);
      InvertedAt(s, inverted, k);
      InvertedAt(s, inverted, k + 1);
      ValidFacts(inverted, k);
      i :| 0 <= i < k && inverted[i] >= 0xE0;
      InvertedAt(s, inverted, i);
    }
  }

  lemma InvertedAt(s: seq<byte>, inverted: seq<byte>, i: nat)
    requires i < |s| && inverted == VaryBytes(s, false, true)
    ensures |inverted| == |s| && inverted[i] == 255 - s[i]
  {
    hide VaryByte;
    InvertByte(s[i]);
  }

  lemma ReversedAt(s: seq<byte>, reversed: seq<byte>, i: nat)
    requires i < |s| && reversed == VaryBytes(s, true, false)
    ensures |reversed| == |s| && reversed[i] == VaryByte(s[i], true, false)
  {
  }

  // A space reversed is a control byte.
  lemma ReversedBlank()
    ensures VaryByte(32, true, false) == 4
  {
    ByteBitIsToBits(32);
    var bits := ToBits(32, 8);
    assert bits == [false, false, true, false, false, false, false, false];
    hide ToBits;
    EightBits(VaryBits(bits, true, false));
    hide FromBits;
  }

  lemma EightBits(s: seq<bool>)
    requires |s| == 8
    ensures FromBits(s) ==
            (if s[0] then 128 else 0) + (if s[1] then 64 else 0) + (if s[2] then 32 else 0) + (if s[3] then 16 else 0)
            + (if s[4] then 8 else 0) + (if s[5] then 4 else 0) + (if s[6] then 2 else 0) + (if s[7] then 1 else 0)
  {
    assert FromBits([]) == 0;
    hide FromBits;
    assert s[..0] == [] && s[..8] == s;
    FourBits(s, 0);
    FourBits(s, 4);
  }

  lemma FourBits(s: seq<bool>, n: nat)
    requires n + 4 <= |s|
    ensures FromBits(s[..n + 4]) ==
            16 * FromBits(s[..n]) +
            (if s[n] then 8 else 0) + (if s[n + 1] then 4 else 0) +
            (if s[n + 2] then 2 else 0) + (if s[n + 3] then 1 else 0)
  {
    hide FromBits;
    FromBitsLast(s, n + 1);
    FromBitsLast(s, n + 2);
    FromBitsLast(s, n + 3);
    FromBitsLast(s, n + 4);
  }

  lemma FromBitsLast(s: seq<bool>, n: nat)
    requires 0 < n <= |s|
    ensures FromBits(s[..n]) == 2 * FromBits(s[..n - 1]) + (if s[n - 1] then 1 else 0)
  {
    assert s[..n][..n - 1] == s[..n - 1];
  }
}
