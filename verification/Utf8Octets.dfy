/** The octets of section 3 of RFC 3629, bit by bit. */
module Utf8Octets {
  import opened Bits
  import opened Utf8

  // The octet that holds these payload bits after its marker.
  predicate Holds(octet: byte, marker: seq<bool>, payload: seq<bool>) {
    ToBits(octet, 8) == marker + payload
  }

  predicate Continues(octet: byte, payload: seq<bool>) {
    Holds(octet, [true, false], payload)
  }

  lemma TwoOctets(cp: Scalar)
    requires 0x80 <= cp < 0x800
    ensures var s, b := Encode(cp), ToBits(cp, 11);
            |s| == 2 && Holds(s[0], [true, true, false], b[..5]) && Continues(s[1], b[5..])
  {
    hide ToBits;
    Pow2Eight();
    Markers();
    Sextet(cp % 64);
    SixMore(cp, 5);
    ToBitsAppend(6, 3, cp / 64, 5);
  }

  lemma ThreeOctets(cp: Scalar)
    requires 0x800 <= cp < 0x10000
    ensures var s, b := Encode(cp), ToBits(cp, 16);
            && |s| == 3 && Holds(s[0], [true, true, true, false], b[..4])
            && Continues(s[1], b[4..10]) && Continues(s[2], b[10..])
  {
    hide ToBits;
    Pow2Eight();
    Markers();
    var q := cp / 64;
    Sextet(cp % 64);
    Sextet(q % 64);
    SixMore(cp, 10);
    SixMore(q, 4);
    ToBitsAppend(14, 4, q / 64, 4);
  }

  lemma FourOctets(cp: Scalar)
    requires 0x10000 <= cp
    ensures var s, b := Encode(cp), ToBits(cp, 21);
            && |s| == 4 && Holds(s[0], [true, true, true, true, false], b[..3])
            && Continues(s[1], b[3..9]) && Continues(s[2], b[9..15]) && Continues(s[3], b[15..])
  {
    hide ToBits;
    Pow2Eight();
    Markers();
    var q := cp / 64;
    var p := q / 64;
    TopBits(cp, q, p);
    Sextet(cp % 64);
    Sextet(q % 64);
    Sextet(p % 64);
    SixMore(cp, 15);
    SixMore(q, 9);
    SixMore(p, 3);
    ToBitsAppend(30, 5, p / 64, 3);
  }

  lemma TopBits(cp: Scalar, q: nat, p: nat)
    requires q == cp / 64 && p == q / 64
    ensures p / 64 < 8
  {
    assert IsScalar(cp);
  }

  // The shortest form with room for the scalar, its bits in order.
  lemma EncodeMeans(cp: Scalar)
    ensures var s := Encode(cp);
            && (cp < 0x80 ==> |s| == 1 && Holds(s[0], [false], ToBits(cp, 7)))
            && (0x80 <= cp < 0x800 ==>
                  var b := ToBits(cp, 11);
                  |s| == 2 && Holds(s[0], [true, true, false], b[..5]) && Continues(s[1], b[5..]))
            && (0x800 <= cp < 0x10000 ==>
                  var b := ToBits(cp, 16);
                  && |s| == 3 && Holds(s[0], [true, true, true, false], b[..4])
                  && Continues(s[1], b[4..10]) && Continues(s[2], b[10..]))
            && (0x10000 <= cp ==>
                  var b := ToBits(cp, 21);
                  && |s| == 4 && Holds(s[0], [true, true, true, true, false], b[..3])
                  && Continues(s[1], b[3..9]) && Continues(s[2], b[9..15]) && Continues(s[3], b[15..]))
  {
    hide ToBits, Holds, Encode, Continues;
    if cp < 0x80 {
      OneOctet(cp);
    } else if cp < 0x800 {
      TwoOctets(cp);
    } else if cp < 0x10000 {
      ThreeOctets(cp);
    } else {
      FourOctets(cp);
    }
  }

  lemma OneOctet(cp: Scalar)
    requires cp < 0x80
    ensures |Encode(cp)| == 1 && Holds(Encode(cp)[0], [false], ToBits(cp, 7))
  {
    hide ToBits;
    Pow2Eight();
    Markers();
    ToBitsAppend(0, 1, cp, 7);
  }

  lemma Sextet(v: nat)
    requires v < 64
    ensures Continues(0x80 + v, ToBits(v, 6))
  {
    Pow2Eight();
    ToBitsAppend(2, 2, v, 6);
    assert ToBits(2, 2) == [true, false];
  }

  lemma SixMore(v: nat, m: nat)
    ensures ToBits(v, m + 6) == ToBits(v / 64, m) + ToBits(v % 64, 6)
  {
    hide ToBits;
    Pow2Eight();
    ToBitsAppend(v / 64, m, v % 64, 6);
  }

  lemma Markers()
    ensures ToBits(0, 1) == [false] && ToBits(6, 3) == [true, true, false]
    ensures ToBits(14, 4) == [true, true, true, false] && ToBits(30, 5) == [true, true, true, true, false]
  {
    assert ToBits(3, 2) == [true, true] && ToBits(7, 3) == [true, true, true];
    assert ToBits(15, 4) == [true, true, true, true];
  }
}
