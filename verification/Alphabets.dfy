/** The radix alphabets written out, and what a Crockford spelling says. */
module Alphabets {
  import opened Bits
  import opened Radix
  import opened Surface

  const UPPER: string := "ABCDEFGHIJKLM" + "NOPQRSTUVWXYZ"
  const LOWER: string := "abcdefghijklm" + "nopqrstuvwxyz"
  const DIGITS: string := "0123456789"
  const CROCKFORD: string := "0123456789ABCDEF" + "GHJKMNPQRSTVWXYZ"

  lemma UpperAt(i: nat)
    requires i < 26
    ensures |UPPER| == 26 && UPPER[i] as int == 65 + i
  {
  }

  lemma LowerAt(i: nat)
    requires i < 26
    ensures |LOWER| == 26 && LOWER[i] as int == 97 + i
  {
  }

  lemma DigitAt(i: nat)
    requires i < 10
    ensures |DIGITS| == 10 && DIGITS[i] as int == 48 + i
  {
  }

  // The alphabets of RFC 4648, tables 1 to 4.
  function Listed(r: Radix): (s: string)
    ensures |s| == if Width(r) == 5 then 32 else 64
  {
    match r
    case Base32 => UPPER + "234567"
    case Base32Hex => DIGITS + UPPER[..22]
    case Base64 => UPPER + LOWER + DIGITS + "+/"
    case Base64Url => UPPER + LOWER + DIGITS + "-_"
  }

  lemma SymbolListed(r: Radix, v: nat)
    requires v < Pow2(Width(r))
    ensures v < |Listed(r)| && Listed(r)[v] as int == Symbol(r, v)
  {
    hide UPPER, LOWER, DIGITS;
    Pow2Eight();
    UpperAt(0);
    LowerAt(0);
    DigitAt(0);
    if r.Base32Hex? {
      if v < 10 {
        DigitAt(v);
      } else {
        UpperAt(v - 10);
      }
    } else if v < 26 {
      UpperAt(v);
    } else if r.Base32? {
      assert "234567"[v - 26] as int == 50 + (v - 26);
    } else if v < 52 {
      LowerAt(v - 26);
    } else if v < 62 {
      DigitAt(v - 52);
    }
  }

  // A byte has value v exactly when, in the case the radix folds to, it is
  // symbol v of the alphabet.
  lemma ValueMeans(r: Radix, c: byte, v: nat)
    ensures Value(r, c) == Some(v) <==> v < |Listed(r)| && Listed(r)[v] as int == Fold(r, c)
  {
    hide Listed, Value, Symbol, Fold;
    Pow2Eight();
    ValueSymbol(r, c);
    if v < Pow2(Width(r)) {
      SymbolListed(r, v);
      SymbolValue(r, v);
    }
  }

  lemma HexListed(c: byte, v: nat)
    ensures HexValue(c) == Some(v) <==> v < 16 && "0123456789ABCDEF"[v] as int == Upper(c)
  {
  }

  lemma CrockfordLow(v: nat)
    requires v < 16
    ensures |CROCKFORD| == 32
    ensures CROCKFORD[v] as int == if v < 10 then 48 + v else 55 + v
  {
    var half := "0123456789ABCDEF";
    assert CROCKFORD[v] == half[v];
  }

  lemma CrockfordHigh(v: nat)
    requires 16 <= v < 32
    ensures CROCKFORD[v] as int == v + (if v < 18 then 55 else if v < 20 then 56 else if v < 22 then 57
                                        else if v < 27 then 58 else 59)
  {
    var half := "GHJKMNPQRSTVWXYZ";
    assert CROCKFORD[v] == half[v - 16];
  }

  lemma CrockfordMeans(c: byte, v: nat)
    ensures |CROCKFORD| == 32
    ensures RadixValue(Crockford, c) == Some(v) <==> v < 32 && CROCKFORD[v] as int == c
  {
    hide CROCKFORD;
    CrockfordLow(0);
    if v < 16 {
      CrockfordLow(v);
    } else if v < 32 {
      CrockfordHigh(v);
    }
  }

  function Alphabet(p: Spelling): (s: string)
    ensures |s| == Pow2(SpellingWidth(p))
  {
    Pow2Eight();
    if p.Rfc64? then Listed(Base64) else if p.Rfc32? then Listed(Base32) else CROCKFORD
  }

  // A byte stands for v exactly when it is symbol v of the alphabet.
  lemma AlphabetMeans(p: Spelling, c: byte, v: nat)
    ensures RadixValue(p, c) == Some(v) <==> v < |Alphabet(p)| && Alphabet(p)[v] as int == c
  {
    hide Listed, CROCKFORD, Value, Symbol;
    Pow2Eight();
    if p.Crockford? {
      CrockfordMeans(c, v);
    } else {
      var r := SameRadix(p);
      ValueMeans(r, c, v);
      if Fold(r, c) == c {
        SameValue(p, c);
      } else if v < 32 {
        SymbolListed(r, v);
        SymbolValue(r, v);
      }
    }
  }

  // ----- what a Crockford spelling says -----

  // s is the list vs written in the alphabet.
  ghost predicate Spells(p: Spelling, s: seq<byte>, vs: seq<nat>) {
    |s| == |vs| && forall i :: 0 <= i < |s| ==> Stands(p, s[i], vs[i])
  }

  ghost predicate Stands(p: Spelling, c: byte, v: nat) {
    v < |Alphabet(p)| && Alphabet(p)[v] as int == c
  }

  // Every list of five-bit values has a spelling.
  lemma {:induction false} HasSpelling(p: Spelling, vs: seq<nat>) returns (s: seq<byte>)
    requires Digits(SpellingWidth(p), vs)
    ensures Spells(p, s, vs)
  {
    hide Alphabet;
    s := [];
    for i := 0 to |vs|
      invariant Spells(p, s, vs[..i])
    {
      AlphabetIsBytes(p, vs[i]);
      s := s + [Alphabet(p)[vs[i]] as int];
    }
    assert vs[..|vs|] == vs;
  }

  lemma AlphabetIsBytes(p: Spelling, v: nat)
    requires v < Pow2(SpellingWidth(p))
    ensures Alphabet(p)[v] as int < 256
  {
    hide Listed, CROCKFORD, Symbol;
    Pow2Eight();
    if !p.Crockford? {
      SymbolListed(SameRadix(p), v);
    } else if v < 16 {
      CrockfordLow(v);
    } else {
      CrockfordHigh(v);
    }
  }

  // One spelling says one list.
  lemma OneReading(p: Spelling, s: seq<byte>, a: seq<nat>, b: seq<nat>)
    requires Spells(p, s, a) && Spells(p, s, b)
    ensures a == b
  {
    hide Alphabet;
    forall i | 0 <= i < |s|
      ensures a[i] == b[i]
    {
      assert Stands(p, s[i], a[i]) && Stands(p, s[i], b[i]);
      AlphabetMeans(p, s[i], a[i]);
      AlphabetMeans(p, s[i], b[i]);
    }
  }

  // The bits of v from its most significant on are those from i on.
  predicate FiveBits(bits: seq<bool>, i: nat, v: nat) {
    && i + 5 <= |bits|
    && bits[i] == (v / 16 % 2 == 1) && bits[i + 1] == (v / 8 % 2 == 1) && bits[i + 2] == (v / 4 % 2 == 1)
    && bits[i + 3] == (v / 2 % 2 == 1) && bits[i + 4] == (v % 2 == 1)
  }

  lemma ToFive(v: nat)
    ensures FiveBits(ToBits(v, 5), 0, v)
  {
    hide ToBits;
    Halves(v);
    LastOfBits(v, 5);
    LastOfBits(v / 2, 4);
    LastOfBits(v / 4, 3);
    LastOfBits(v / 8, 2);
    LastOfBits(v / 16, 1);
  }

  lemma Halves(v: nat)
    ensures v / 2 / 2 == v / 4 && v / 4 / 2 == v / 8 && v / 8 / 2 == v / 16
  {
  }

  lemma LastOfBits(v: nat, w: nat)
    requires w > 0
    ensures ToBits(v, w) == ToBits(v / 2, w - 1) + [v % 2 == 1]
  {
  }

  lemma {:induction false} DigitFive(ds: seq<nat>, i: nat)
    requires i < |ds|
    ensures FiveBits(DigitBits(5, ds), 5 * i, ds[i])
    decreases |ds|
  {
    hide ToBits;
    var m := |ds| - 1;
    if i < m {
      DigitFive(ds[..m], i);
    } else {
      ToFive(ds[m]);
    }
  }

  // A Crockford token decodes exactly when it spells a list of five-bit
  // values, and then to the bits of that list and no other.
  lemma CrockfordRoundTrip(s: seq<byte>, vs: seq<nat>)
    requires Spells(Crockford, s, vs)
    ensures WellSpelled(Crockford, s)
    ensures var bits := SurfaceBits(Crockford, s);
            |bits| == 5 * |vs| && forall i :: 0 <= i < |vs| ==> FiveBits(bits, 5 * i, vs[i])
  {
    hide Alphabet, DigitBits, FiveBits, RadixValue, Body, WellSpelled, SurfaceBits, Spells;
    CrockfordListed(s, vs);
    forall i | 0 <= i < |vs|
      ensures FiveBits(SurfaceBits(Crockford, s), 5 * i, vs[i])
    {
      DigitFive(vs, i);
    }
  }

  lemma CrockfordSays(s: seq<byte>, vs: seq<nat>)
    requires |s| == |vs| && forall i :: 0 <= i < |s| ==> RadixValue(Crockford, s[i]) == Some(vs[i])
    ensures WellSpelled(Crockford, s) && SurfaceBits(Crockford, s) == DigitBits(5, vs)
  {
    hide RadixValue, DigitBits, Body;
    forall i | 0 <= i < |s|
      ensures s[i] != PAD
    {
      assert RadixValue(Crockford, s[i]).Some?;
    }
    BodyIs(s, |s|);
    assert s[..|s|] == s;
    assert SpelledDigits(Crockford, s) == vs;
  }

  lemma CrockfordSpelled(s: seq<byte>) returns (vs: seq<nat>)
    requires WellSpelled(Crockford, s)
    ensures Digits(5, vs) && Spells(Crockford, s, vs)
  {
    hide RadixValue, Body, Alphabet;
    assert Body(s) == s;
    vs := SpelledDigits(Crockford, s);
    forall i | 0 <= i < |s|
      ensures Stands(Crockford, s[i], vs[i])
    {
      AlphabetMeans(Crockford, s[i], vs[i]);
    }
  }

  // Different lists have different spellings, and different spellings say
  // different things.
  lemma CrockfordInjective(s: seq<byte>, t: seq<byte>)
    requires WellSpelled(Crockford, s) && WellSpelled(Crockford, t)
    requires SurfaceBits(Crockford, s) == SurfaceBits(Crockford, t)
    ensures s == t
  {
    hide WellSpelled, SurfaceBits, DigitBits, RadixValue, Alphabet, Spells;
    var a := CrockfordSpelled(s);
    var b := CrockfordSpelled(t);
    CrockfordListed(s, a);
    CrockfordListed(t, b);
    DigitBitsInjective(5, a, b);
    SameSpelling(s, t, a);
  }

  lemma CrockfordListed(s: seq<byte>, vs: seq<nat>)
    requires Spells(Crockford, s, vs)
    ensures WellSpelled(Crockford, s) && SurfaceBits(Crockford, s) == DigitBits(5, vs)
  {
    hide WellSpelled, SurfaceBits, DigitBits, RadixValue, Alphabet;
    forall i | 0 <= i < |s|
      ensures RadixValue(Crockford, s[i]) == Some(vs[i])
    {
      AlphabetMeans(Crockford, s[i], vs[i]);
    }
    CrockfordSays(s, vs);
  }

  lemma SameSpelling(s: seq<byte>, t: seq<byte>, vs: seq<nat>)
    requires Spells(Crockford, s, vs) && Spells(Crockford, t, vs)
    ensures s == t
  {
    hide Alphabet;
    forall i | 0 <= i < |s|
      ensures s[i] == t[i]
    {
      assert Stands(Crockford, s[i], vs[i]) && Stands(Crockford, t[i], vs[i]);
    }
  }
}
