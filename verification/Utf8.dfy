/** The strict UTF-8 scanner, against the encoding of RFC 3629 sections 3 and 4. */
module Utf8 {
  import opened Bits
  import opened Bitstream

  predicate IsScalar(cp: nat) {
    cp <= 0x10FFFF && !(0xD800 <= cp <= 0xDFFF)
  }

  type Scalar = cp: nat | IsScalar(cp)

  // Six bits to a continuation byte, the rest in the lead byte.
  function Encode(cp: Scalar): (s: seq<byte>)
    ensures 1 <= |s| <= 4
  {
    var q1 := cp / 64;
    var q2 := q1 / 64;
    var q3 := q2 / 64;
    var c0: byte, c1: byte, c2: byte := 0x80 + cp % 64, 0x80 + q1 % 64, 0x80 + q2 % 64;
    if cp <= 0x7F then [cp]
    else if cp <= 0x7FF then [0xC0 + q1, c0]
    else if cp <= 0xFFFF then [0xE0 + q2, c1, c0]
    else
      assert IsScalar(cp);
      assert q1 <= 0x43FF;
      assert q2 <= 0x10F;
      [0xF0 + q3, c2, c1, c0]
  }

  function EncodeAll(cps: seq<Scalar>): seq<byte> {
    if cps == [] then [] else EncodeAll(cps[..|cps| - 1]) + Encode(cps[|cps| - 1])
  }

  ghost predicate ValidUtf8(s: seq<byte>) {
    exists cps: seq<Scalar> :: EncodeAll(cps) == s
  }

  // ----- one sequence -----

  // How many continuation bytes a lead byte announces.
  function Need(b: byte): Option<nat> {
    if b <= 0x7F then Some(0)
    else if 0xC2 <= b <= 0xDF then Some(1)
    else if 0xE0 <= b <= 0xEF then Some(2)
    else if 0xF0 <= b <= 0xF4 then Some(3)
    else None
  }

  function LeadBits(b: byte): nat {
    if b <= 0x7F then b else if b <= 0xDF then b % 32 else if b <= 0xEF then b % 16 else b % 8
  }

  // The test on continuation byte j after lead byte `lead`.
  predicate Continues(lead: byte, j: nat, b: byte) {
    && b / 64 == 2
    && (j == 0 ==>
      && (lead == 0xE0 ==> b >= 0xA0) && (lead == 0xED ==> b <= 0x9F)
      && (lead == 0xF0 ==> b >= 0x90) && (lead == 0xF4 ==> b <= 0x8F))
  }

  // Bits gathered after the lead byte and the first k continuation bytes.
  function Gather(s: seq<byte>, k: nat): nat
    requires k < |s|
  {
    if k == 0 then LeadBits(s[0]) else Gather(s, k - 1) * 64 + s[k] % 64
  }

  ghost predicate WellFormed(s: seq<byte>, n: nat) {
    && n <= 4 && n < |s| && Need(s[0]) == Some(n)
    && (n >= 1 ==> Continues(s[0], 0, s[1]))
    && (n >= 2 ==> Continues(s[0], 1, s[2]))
    && (n >= 3 ==> Continues(s[0], 2, s[3]))
  }

  lemma SixBits(high: nat, low: nat)
    requires low < 64
    ensures (high * 64 + low) / 64 == high && (high * 64 + low) % 64 == low
  {
  }

  // Where the tests put the lead byte and its continuation bytes.
  lemma Ranges(s: seq<byte>, n: nat)
    requires WellFormed(s, n)
    ensures n <= 3 && n < |s|
    ensures forall k :: 1 <= k <= n ==> 0x80 <= s[k] < 0xC0 && s[k] / 64 == 2
    ensures var lead: nat := LeadBits(s[0]);
            match n
            case 0 => lead == s[0] <= 0x7F
            case 1 => 2 <= lead < 32 && s[0] == 0xC0 + lead
            case 2 => lead < 16 && s[0] == 0xE0 + lead && (lead == 0 ==> s[1] >= 0xA0) && (lead == 13 ==> s[1] < 0xA0)
            case _ => lead <= 4 && s[0] == 0xF0 + lead && (lead == 0 ==> s[1] >= 0x90) && (lead == 4 ==> s[1] < 0x90)
  {
  }

  // A sequence the scanner accepts is the encoding of what it gathers.
  lemma GatherEncodes(s: seq<byte>, n: nat)
    requires WellFormed(s, n)
    ensures n < |s|
    ensures IsScalar(Gather(s, n)) && Encode(Gather(s, n)) == s[..n + 1]
  {
    Ranges(s, n);
    hide WellFormed, LeadBits, Gather, Encode, IsScalar;
    var lead: nat := LeadBits(s[0]);
    GatherStep(s, 0);
    if n == 0 {
      EncodeOne(lead);
    } else if n == 1 {
      GatherStep(s, 1);
      EncodeTwo(lead, s[1] - 0x80);
    } else if n == 2 {
      GatherThree(s);
    } else {
      GatherFour(s);
    }
  }

  lemma GatherThree(s: seq<byte>)
    requires WellFormed(s, 2)
    ensures IsScalar(Gather(s, 2)) && Encode(Gather(s, 2)) == s[..3]
  {
    Ranges(s, 2);
    hide WellFormed, LeadBits, Gather, Encode, IsScalar;
    GatherStep(s, 0);
    GatherStep(s, 1);
    GatherStep(s, 2);
    EncodeThree(LeadBits(s[0]), s[1] - 0x80, s[2] - 0x80);
    assert s[..3] == [s[0], s[1], s[2]];
  }

  lemma GatherFour(s: seq<byte>)
    requires WellFormed(s, 3)
    ensures IsScalar(Gather(s, 3)) && Encode(Gather(s, 3)) == s[..4]
  {
    Ranges(s, 3);
    hide WellFormed, LeadBits, Gather, Encode, IsScalar;
    GatherStep(s, 0);
    GatherStep(s, 1);
    GatherStep(s, 2);
    GatherStep(s, 3);
    EncodeFour(LeadBits(s[0]), s[1] - 0x80, s[2] - 0x80, s[3] - 0x80);
    assert s[..4] == [s[0], s[1], s[2], s[3]];
  }

  lemma GatherStep(s: seq<byte>, k: nat)
    requires k < |s| && (k > 0 ==> s[k] / 64 == 2)
    ensures Gather(s, k) == if k == 0 then LeadBits(s[0]) else Gather(s, k - 1) * 64 + (s[k] - 0x80)
  {
  }

  lemma EncodeOne(lead: nat)
    requires lead <= 0x7F
    ensures IsScalar(lead) && Encode(lead) == [lead]
  {
  }

  lemma EncodeTwo(lead: nat, x: nat)
    requires 2 <= lead < 32 && x < 64
    ensures IsScalar(lead * 64 + x) && Encode(lead * 64 + x) == [0xC0 + lead, 0x80 + x]
  {
    SixBits(lead, x);
  }

  lemma EncodeThree(lead: nat, x: nat, y: nat)
    requires lead < 16 && x < 64 && y < 64 && (lead == 0 ==> x >= 32) && (lead == 13 ==> x < 32)
    ensures var cp := (lead * 64 + x) * 64 + y;
            IsScalar(cp) && Encode(cp) == [0xE0 + lead, 0x80 + x, 0x80 + y]
  {
    SixBits(lead, x);
    SixBits(lead * 64 + x, y);
  }

  lemma EncodeFour(lead: nat, x: nat, y: nat, z: nat)
    requires lead <= 4 && x < 64 && y < 64 && z < 64 && (lead == 0 ==> x >= 16) && (lead == 4 ==> x < 16)
    ensures var cp := ((lead * 64 + x) * 64 + y) * 64 + z;
            IsScalar(cp) && Encode(cp) == [0xF0 + lead, 0x80 + x, 0x80 + y, 0x80 + z]
  {
    SixBits(lead, x);
    SixBits(lead * 64 + x, y);
    SixBits((lead * 64 + x) * 64 + y, z);
  }

  // Every encoding, whatever follows it, is accepted.
  lemma EncodingWellFormed(cp: Scalar, rest: seq<byte>)
    ensures WellFormed(Encode(cp) + rest, |Encode(cp)| - 1)
  {
    hide Encode;
    assert IsScalar(cp);
    var q1 := cp / 64;
    var q2 := q1 / 64;
    var q3 := q2 / 64;
    var e, s := Encode(cp), Encode(cp) + rest;
    if cp <= 0x7F {
      EncodeOne(cp);
    } else if cp <= 0x7FF {
      EncodeTwo(q1, cp % 64);
    } else if cp <= 0xFFFF {
      assert q2 == 13 ==> q1 <= 0x35F;
      EncodeThree(q2, q1 % 64, cp % 64);
    } else {
      assert q1 <= 0x43FF && q2 <= 0x10F;
      EncodeFour(q3, q2 % 64, q1 % 64, cp % 64);
    }
    assert s[0] == e[0];
    assert |e| >= 2 ==> s[1] == e[1];
    assert |e| >= 3 ==> s[2] == e[2];
    assert |e| >= 4 ==> s[3] == e[3];
  }

  lemma WellFormedUnique(s: seq<byte>, m: nat, n: nat)
    requires WellFormed(s, m) && WellFormed(s, n)
    ensures m == n
  {
  }

  // The scanner accepts at the front of s exactly when some scalar's encoding
  // is there, and no two scalars compete.
  lemma AcceptsExactlyEncodings(s: seq<byte>)
    ensures (exists n: nat :: WellFormed(s, n)) <==> (exists cp: Scalar :: Encode(cp) <= s)
    ensures forall a: Scalar, b: Scalar :: Encode(a) <= s && Encode(b) <= s ==> a == b
  {
    hide WellFormed, Encode, Gather, IsScalar;
    forall n: nat | WellFormed(s, n)
      ensures exists cp: Scalar :: Encode(cp) <= s
    {
      GatherEncodes(s, n);
      assert Encode(Gather(s, n)) <= s;
    }
    forall cp: Scalar | Encode(cp) <= s
      ensures WellFormed(s, |Encode(cp)| - 1) && Gather(s, |Encode(cp)| - 1) == cp
    {
      EncodingFound(s, cp);
    }
    forall a: Scalar, b: Scalar | Encode(a) <= s && Encode(b) <= s
      ensures a == b
    {
      WellFormedUnique(s, |Encode(a)| - 1, |Encode(b)| - 1);
    }
  }

  lemma EncodingFound(s: seq<byte>, cp: Scalar)
    requires Encode(cp) <= s
    ensures WellFormed(s, |Encode(cp)| - 1) && Gather(s, |Encode(cp)| - 1) == cp
  {
    var n := |Encode(cp)| - 1;
    assert s == Encode(cp) + s[n + 1..];
    EncodingWellFormed(cp, s[n + 1..]);
    GatherEncodes(s, n);
    EncodeInjective(cp, Gather(s, n));
  }

  lemma EncodeInjective(a: Scalar, b: Scalar)
    requires Encode(a) == Encode(b)
    ensures a == b
  {
    var s, t := Encode(a), Encode(b);
    assert s[0] == t[0];
    assert |s| >= 2 ==> s[1] == t[1];
    assert |s| >= 3 ==> s[2] == t[2];
    assert |s| >= 4 ==> s[3] == t[3];
  }

  // ----- the whole input -----

  datatype ScalarAt = ScalarAt(value: Scalar, offset: nat, length: nat)

  function Values(found: seq<ScalarAt>): (v: seq<Scalar>)
    ensures |v| == |found|
  {
    seq(|found|, i requires 0 <= i < |found| => found[i].value)
  }

  // Where the span after the i-th one starts, or the last one ends.
  function NextOffset(found: seq<ScalarAt>, i: nat, end: nat): nat
    requires i < |found|
  {
    if i + 1 < |found| then found[i + 1].offset else end
  }

  // Spans that start at 0 and follow one another without a gap, to `end`.
  ghost predicate Contiguous(found: seq<ScalarAt>, end: nat) {
    && (forall i :: 0 <= i < |found| ==> found[i].length == |Encode(found[i].value)|)
    && (forall i :: 0 <= i < |found| ==>
          found[i].offset + found[i].length == NextOffset(found, i, end))
    && (if found == [] then end == 0 else found[0].offset == 0)
  }

  lemma ContiguousAppend(found: seq<ScalarAt>, at: nat, cp: Scalar)
    requires Contiguous(found, at)
    ensures Contiguous(found + [ScalarAt(cp, at, |Encode(cp)|)], at + |Encode(cp)|)
  {
    hide Encode;
    var here := ScalarAt(cp, at, |Encode(cp)|);
    var next := found + [here];
    forall i | 0 <= i < |next|
      ensures next[i].length == |Encode(next[i].value)|
    {
      assert next[i] == if i < |found| then found[i] else here;
    }
    forall i | 0 <= i < |next|
      ensures next[i].offset + next[i].length == NextOffset(next, i, at + |Encode(cp)|)
    {
      if i < |found| {
        assert next[i] == found[i];
        assert found[i].offset + found[i].length == NextOffset(found, i, at);
        assert next[i + 1] == if i + 1 < |found| then found[i + 1] else here;
      } else {
        assert next[i] == here;
      }
    }
    assert next[0] == if found == [] then here else found[0];
  }

  lemma {:induction false} EncodeAllAppend(cps: seq<Scalar>, cp: Scalar)
    ensures EncodeAll(cps + [cp]) == EncodeAll(cps) + Encode(cp)
  {
    assert (cps + [cp])[..|cps|] == cps;
  }

  lemma {:induction false} EncodeAllConcat(a: seq<Scalar>, b: seq<Scalar>)
    ensures EncodeAll(a + b) == EncodeAll(a) + EncodeAll(b)
  {
    hide Encode, EncodeAll;
    if b == [] {
      assert a + b == a;
      EncodeNothing();
      assert EncodeAll(a) + [] == EncodeAll(a);
    } else {
      var front, last := b[..|b| - 1], b[|b| - 1];
      EncodeAllConcat(a, front);
      EncodeAllAppend(a + front, last);
      EncodeAllAppend(front, last);
      Regroup(a, front, [last]);
      assert front + [last] == b;
      Regroup(EncodeAll(a), EncodeAll(front), Encode(last));
    }
  }

  lemma EncodeNothing()
    ensures EncodeAll([]) == []
  {
  }

  lemma Regroup<T>(x: seq<T>, y: seq<T>, z: seq<T>)
    ensures x + y + z == x + (y + z)
  {
  }

  lemma EncodeAllFirst(cps: seq<Scalar>)
    requires cps != []
    ensures EncodeAll(cps) == Encode(cps[0]) + EncodeAll(cps[1..])
  {
    hide Encode, EncodeAll;
    assert cps == [cps[0]] + cps[1..];
    EncodeAllConcat([cps[0]], cps[1..]);
    EncodeAllOne(cps[0]);
  }

  lemma EncodeAllOne(cp: Scalar)
    ensures EncodeAll([cp]) == Encode(cp)
  {
    hide Encode;
    EncodeAllAppend([], cp);
    assert [] + [cp] == [cp];
  }

  // Whatever decodes a prefix of s agrees with every other decoding of s as
  // far as it goes.
  lemma {:induction false} DecodingUnique(a: seq<Scalar>, b: seq<Scalar>, s: seq<byte>)
    requires EncodeAll(a) <= s && EncodeAll(b) <= s && |a| <= |b|
    ensures a <= b
  {
    hide Encode, EncodeAll, WellFormed;
    if a != [] {
      EncodeAllFirst(a);
      EncodeAllFirst(b);
      AcceptsExactlyEncodings(s);
      assert Encode(a[0]) <= s && Encode(b[0]) <= s;
      var k := |Encode(a[0])|;
      DecodingUnique(a[1..], b[1..], s[k..]);
    }
  }

  lemma EncodeAllPrefix(a: seq<Scalar>, b: seq<Scalar>)
    requires a <= b
    ensures EncodeAll(a) <= EncodeAll(b)
    ensures |a| < |b| ==> Encode(b[|a|]) <= EncodeAll(b)[|EncodeAll(a)|..]
  {
    hide Encode, EncodeAll;
    EncodeAllConcat(a, b[|a|..]);
    assert b == a + b[|a|..];
    if |a| < |b| {
      EncodeAllFirst(b[|a|..]);
    }
  }

  // The scalars before an offset no encoding starts at are all there are: no
  // longer prefix of the input is valid.
  lemma MaximalPrefix(cps: seq<Scalar>, s: seq<byte>, at: nat, k: nat)
    requires at < k <= |s| && EncodeAll(cps) == s[..at]
    requires forall cp: Scalar :: !(Encode(cp) <= s[at..])
    ensures !ValidUtf8(s[..k])
  {
    hide Encode, EncodeAll;
    if all: seq<Scalar> :| EncodeAll(all) == s[..k] {
      if |all| <= |cps| {
        DecodingUnique(all, cps, s);
        EncodeAllPrefix(all, cps);
        assert false;
      }
      DecodingUnique(cps, all, s);
      EncodeAllPrefix(cps, all);
      assert false;
    }
  }

  // One sequence at `start`: the scanner's inner step.
  method ScanOne(input: seq<byte>, start: nat) returns (next: Option<nat>, cp: nat)
    requires start < |input|
    ensures next.Some? ==>
      && start < next.value <= |input| && IsScalar(cp) && Encode(cp) == input[start..next.value]
    ensures next.None? ==> forall c: Scalar :: !(Encode(c) <= input[start..])
  {
    hide Encode, Gather;
    ghost var s := input[start..];
    AcceptsExactlyEncodings(s);
    var b0 := input[start];
    cp := 0;
    var need := Need(b0);
    if need.None? {
      return None, cp;
    }
    cp := LeadBits(b0);
    GatherStep(s, 0);
    if need.value > |input| - start - 1 {
      return None, cp;
    }
    var j := 0;
    while j < need.value
      invariant 0 <= j <= need.value <= 3
      invariant cp == Gather(s, j)
      invariant j >= 1 ==> Continues(s[0], 0, s[1])
      invariant j >= 2 ==> Continues(s[0], 1, s[2])
      invariant j >= 3 ==> Continues(s[0], 2, s[3])
    {
      var bx := input[start + 1 + j];
      if !Continues(b0, j, bx) {
        return None, cp;
      }
      GatherStep(s, j + 1);
      cp := cp * 64 + bx % 64;
      j := j + 1;
    }
    assert WellFormed(s, need.value);
    GatherEncodes(s, need.value);
    assert s[..need.value + 1] == input[start..start + need.value + 1];
    return Some(start + need.value + 1), cp;
  }

  // Emits every scalar before the first sequence that is not an encoding.
  method Foreach(input: seq<byte>) returns (status: Status, emitted: seq<ScalarAt>, errorOffset: nat)
    ensures status == Ok || status == Eutf8
    ensures status == Ok <==> ValidUtf8(input)
    ensures status == Ok ==> EncodeAll(Values(emitted)) == input && Contiguous(emitted, |input|)
    ensures status == Eutf8 ==>
      && errorOffset < |input|
      && EncodeAll(Values(emitted)) == input[..errorOffset] && Contiguous(emitted, errorOffset)
      && forall k :: errorOffset < k <= |input| ==> !ValidUtf8(input[..k])
  {
    hide Encode;
    emitted, errorOffset := [], 0;
    var i := 0;
    while i < |input|
      invariant i <= |input|
      invariant EncodeAll(Values(emitted)) == input[..i] && Contiguous(emitted, i)
      decreases |input| - i
    {
      var next, cp := ScanOne(input, i);
      if next.None? {
        forall k | i < k <= |input|
          ensures !ValidUtf8(input[..k])
        {
          MaximalPrefix(Values(emitted), input, i, k);
        }
        assert input[..|input|] == input;
        return Eutf8, emitted, i;
      }
      EncodeAllAppend(Values(emitted), cp);
      ContiguousAppend(emitted, i, cp);
      ghost var before := emitted;
      emitted := emitted + [ScalarAt(cp, i, next.value - i)];
      assert Values(emitted) == Values(before) + [cp];
      assert input[..next.value] == input[..i] + input[i..next.value];
      i := next.value;
    }
    assert input[..|input|] == input;
    return Ok, emitted, 0;
  }
}
