/** The filter's strict Base16/32/64 decoders against the encodings of RFC 4648
    sections 4 to 8. */
module Radix {
  import opened Bits

  datatype Radix = Base32 | Base32Hex | Base64 | Base64Url

  const PAD: byte := 61  // '='

  function Width(r: Radix): (w: nat)
    ensures 5 <= w <= 6
  {
    if r.Base32? || r.Base32Hex? then 5 else 6
  }

  function Group(r: Radix): (g: nat)
    ensures g == 8 || g == 4
  {
    if r.Base32? || r.Base32Hex? then 8 else 4
  }

  function Upper(c: byte): byte {
    if 97 <= c <= 122 then c - 32 else c
  }

  // The value of one symbol, or None.
  function Value(r: Radix, c: byte): (v: Option<nat>)
    ensures v.Some? ==> v.value < Pow2(Width(r))
    ensures c == PAD ==> v.None?
  {
    Pow2Eight();
    if r.Base32? then
      var d := Lower(c);
      if 97 <= d <= 122 then Some(d - 97) else if 50 <= d <= 55 then Some(d - 50 + 26) else None
    else if r.Base32Hex? then
      var d := Lower(c);
      if 48 <= d <= 57 then Some(d - 48) else if 97 <= d <= 118 then Some(d - 97 + 10) else None
    else if 65 <= c <= 90 then Some(c - 65)
    else if 97 <= c <= 122 then Some(c - 97 + 26)
    else if 48 <= c <= 57 then Some(c - 48 + 52)
    else if c == (if r.Base64? then 43 else 45) then Some(62)
    else if c == (if r.Base64? then 47 else 95) then Some(63)
    else None
  }

  // The alphabets of RFC 4648, tables 1 to 4.
  function Symbol(r: Radix, v: nat): (c: byte)
    requires v < Pow2(Width(r))
  {
    Pow2Eight();
    if r.Base32? then (if v < 26 then 65 + v else 50 + (v - 26))
    else if r.Base32Hex? then (if v < 10 then 48 + v else 65 + (v - 10))
    else if v < 26 then 65 + v
    else if v < 52 then 97 + (v - 26)
    else if v < 62 then 48 + (v - 52)
    else if v == 62 then (if r.Base64? then 43 else 45)
    else if r.Base64? then 47 else 95
  }

  // Base 32 tokens are compared in upper case; base 64 is case sensitive.
  function Fold(r: Radix, c: byte): byte {
    if r.Base32? || r.Base32Hex? then Upper(c) else c
  }

  function FoldAll(r: Radix, s: seq<byte>): (f: seq<byte>)
    ensures |f| == |s|
  {
    seq(|s|, i requires 0 <= i < |s| => Fold(r, s[i]))
  }

  lemma SymbolValue(r: Radix, v: nat)
    requires v < Pow2(Width(r))
    ensures Value(r, Symbol(r, v)) == Some(v) && Fold(r, Symbol(r, v)) == Symbol(r, v)
  {
    Pow2Eight();
  }

  lemma ValueSymbol(r: Radix, c: byte)
    ensures Value(r, c).Some? ==> Symbol(r, Value(r, c).value) == Fold(r, c)
    ensures Value(r, Fold(r, c)) == Value(r, c)
    ensures Fold(r, c) == PAD <==> c == PAD
  {
    Pow2Eight();
  }

  // ----- digits and bits -----

  predicate Digits(w: nat, ds: seq<nat>) {
    forall i :: 0 <= i < |ds| ==> ds[i] < Pow2(w)
  }

  function DigitBits(w: nat, ds: seq<nat>): (s: seq<bool>)
    ensures |s| == w * |ds|
  {
    if ds == [] then [] else DigitBits(w, ds[..|ds| - 1]) + ToBits(ds[|ds| - 1], w)
  }

  lemma MulStep(w: nat, n: nat)
    requires n > 0
    ensures w * n == w * (n - 1) + w
  {
  }

  // s cut into n symbols of w bits.
  function Chunk(w: nat, s: seq<bool>, n: nat): (ds: seq<nat>)
    requires |s| == w * n
    ensures |ds| == n && Digits(w, ds)
    decreases n
  {
    if n == 0 then []
    else
      var at := w * (n - 1);
      MulStep(w, n);
      ToFromBits(s[at..]);
      Chunk(w, s[..at], n - 1) + [FromBits(s[at..])]
  }

  lemma {:induction false} ChunkBits(w: nat, s: seq<bool>, n: nat)
    requires |s| == w * n
    ensures DigitBits(w, Chunk(w, s, n)) == s
    decreases n
  {
    hide ToBits, FromBits;
    if n != 0 {
      var at := w * (n - 1);
      MulStep(w, n);
      ChunkBits(w, s[..at], n - 1);
      ToFromBits(s[at..]);
      assert s == s[..at] + s[at..];
      assert Chunk(w, s, n)[..n - 1] == Chunk(w, s[..at], n - 1);
    }
  }

  lemma {:induction false} DigitBitsInjective(w: nat, a: seq<nat>, b: seq<nat>)
    requires w > 0 && Digits(w, a) && Digits(w, b) && DigitBits(w, a) == DigitBits(w, b)
    ensures a == b
  {
    SameLength(w, |a|, |b|);
    if a != [] {
      var m := |a| - 1;
      var x, y := DigitBits(w, a), DigitBits(w, b);
      var p, q := DigitBits(w, a[..m]), DigitBits(w, b[..m]);
      assert x == p + ToBits(a[m], w) && y == q + ToBits(b[m], w);
      assert p == x[..w * m] && q == y[..w * m];
      assert ToBits(a[m], w) == x[w * m..] && ToBits(b[m], w) == y[w * m..];
      DigitBitsInjective(w, a[..m], b[..m]);
      ToBitsInjective(a[m], b[m], w);
      assert a == a[..m] + [a[m]] && b == b[..m] + [b[m]];
    }
  }

  lemma SameLength(w: nat, m: nat, n: nat)
    requires w > 0 && w * m == w * n
    ensures m == n
  {
  }

  function Zeros(n: nat): (z: seq<bool>)
    ensures |z| == n && Clear(z, 0)
  {
    seq(n, _ => false)
  }

  // ----- the encoder -----

  // What rounds m up to a multiple of w.
  function Slack(w: nat, m: nat): (k: nat)
    requires w > 0
    ensures k < w
    decreases m
  {
    if m == 0 then 0 else if m < w then w - m else Slack(w, m - w)
  }

  // How many symbols of w bits hold m bits.
  function SymbolCount(w: nat, m: nat): (n: nat)
    requires w > 0
    ensures w * n == m + Slack(w, m)
    decreases m
  {
    if m == 0 then 0
    else if m < w then 1
    else
      var n := SymbolCount(w, m - w);
      assert w * (n + 1) == w * n + w;
      n + 1
  }

  lemma {:induction false} SlackUnique(w: nat, m: nat, n: nat)
    requires w > 0 && m <= w * n < m + w
    ensures n == SymbolCount(w, m) && Slack(w, m) == w * n - m
    decreases m
  {
    if n > 0 {
      MulStep(w, n);
      if m >= w {
        SlackUnique(w, m - w, n - 1);
      } else {
        MulStep(w, if n > 1 then n - 1 else 1);
      }
    }
  }

  function EncodeDigits(r: Radix, bytes: seq<byte>): (ds: seq<nat>)
    ensures Digits(Width(r), ds)
  {
    var bits, w := BytesBits(bytes), Width(r);
    Chunk(w, bits + Zeros(Slack(w, |bits|)), SymbolCount(w, |bits|))
  }

  function Symbols(r: Radix, ds: seq<nat>): (s: seq<byte>)
    requires Digits(Width(r), ds)
    ensures |s| == |ds|
  {
    seq(|ds|, i requires 0 <= i < |ds| => Symbol(r, ds[i]))
  }

  function Unpadded(r: Radix, bytes: seq<byte>): seq<byte> {
    Symbols(r, EncodeDigits(r, bytes))
  }

  function Pads(n: nat): (p: seq<byte>)
    ensures |p| == n
  {
    seq(n, _ => PAD)
  }

  function Padded(r: Radix, bytes: seq<byte>): seq<byte> {
    var s := Unpadded(r, bytes);
    s + Pads(Slack(Group(r), |s|))
  }

  // ----- the decoder -----

  // The symbols before the first pad.
  function Body(s: seq<byte>): (b: seq<byte>)
    ensures b <= s && PAD !in b
    ensures |b| < |s| ==> s[|b|] == PAD
  {
    if s == [] || s[0] == PAD then [] else [s[0]] + Body(s[1..])
  }

  predicate AllPads(s: seq<byte>) {
    forall i :: 0 <= i < |s| ==> s[i] == PAD
  }

  predicate AllValues(r: Radix, s: seq<byte>) {
    forall i :: 0 <= i < |s| ==> Value(r, s[i]).Some?
  }

  function ValuesOf(r: Radix, s: seq<byte>): (ds: seq<nat>)
    requires AllValues(r, s)
    ensures |ds| == |s| && Digits(Width(r), ds)
  {
    seq(|s|, i requires 0 <= i < |s| => Value(r, s[i]).value)
  }

  predicate RemainderOk(r: Radix, m: nat) {
    if r.Base32? || r.Base32Hex? then m == 0 || m == 2 || m == 4 || m == 5 || m == 7 else m != 1
  }

  function ExpectedPads(r: Radix, m: nat): nat {
    if r.Base32? || r.Base32Hex? then
      (if m == 2 then 6 else if m == 4 then 4 else if m == 5 then 3 else if m == 7 then 1 else 0)
    else (if m == 2 then 2 else if m == 3 then 1 else 0)
  }

  lemma {:induction false} SlackMod8(n: nat)
    ensures Slack(8, n) == if n % 8 == 0 then 0 else 8 - n % 8
    decreases n
  {
    if n >= 8 {
      SlackMod8(n - 8);
      assert (n - 8) % 8 == n % 8;
    }
  }

  lemma {:induction false} SlackMod4(n: nat)
    ensures Slack(4, n) == if n % 4 == 0 then 0 else 4 - n % 4
    decreases n
  {
    if n >= 4 {
      SlackMod4(n - 4);
      assert (n - 4) % 4 == n % 4;
    }
  }

  // The remainder table admits exactly the symbol counts whose unused tail is
  // shorter than a symbol, and the pad table completes the group.
  lemma RemainderTable(r: Radix, n: nat)
    ensures RemainderOk(r, n % Group(r)) <==> Width(r) * n % 8 < Width(r)
    ensures RemainderOk(r, n % Group(r)) ==> ExpectedPads(r, n % Group(r)) == Slack(Group(r), n)
  {
    hide Slack;
    SlackMod8(n);
    SlackMod4(n);
    if Group(r) == 8 {
      TailOf5(n);
    } else {
      TailOf6(n);
    }
  }

  lemma TailOf5(n: nat)
    ensures 5 * n % 8 == 5 * (n % 8) % 8
  {
    WholeEights(5 * (n % 8), 5 * (n / 8));
    assert 5 * n == 5 * (n % 8) + 8 * (5 * (n / 8));
  }

  lemma TailOf6(n: nat)
    ensures 6 * n % 8 == 6 * (n % 4) % 8
  {
    WholeEights(6 * (n % 4), 3 * (n / 4));
    assert 6 * n == 6 * (n % 4) + 8 * (3 * (n / 4));
  }

  lemma {:induction false} WholeEights(m: nat, k: nat)
    ensures (m + 8 * k) % 8 == m % 8
  {
    if k > 0 {
      WholeEights(m, k - 1);
      var x := m + 8 * (k - 1);
      assert (x + 8) % 8 == x % 8;
    }
  }

  // What is left of the token's bits after whole bytes.
  function TailBits(r: Radix, n: nat): nat {
    Width(r) * n % 8
  }

  // The verdict on a token, from its symbols and pads alone.
  ghost predicate Accepts(r: Radix, s: seq<byte>, bytes: seq<byte>) {
    var body := Body(s);
    var n, pads := |body|, |s| - |body|;
    && |s| >= 8 && bytes != []
    && AllPads(s[n..]) && AllValues(r, body)
    && RemainderOk(r, n % Group(r))
    && (pads == 0 || (|s| % Group(r) == 0 && pads == ExpectedPads(r, n % Group(r))))
    && DigitBits(Width(r), ValuesOf(r, body)) == BytesBits(bytes) + Zeros(TailBits(r, n))
  }

  lemma AcceptsUnique(r: Radix, s: seq<byte>, a: seq<byte>, b: seq<byte>)
    requires Accepts(r, s, a) && Accepts(r, s, b)
    ensures a == b
  {
    var bits := DigitBits(Width(r), ValuesOf(r, Body(s)));
    var t := TailBits(r, |Body(s)|);
    assert BytesBits(a) == bits[..|bits| - t] && BytesBits(b) == bits[..|bits| - t];
    BytesBitsInjective(a, b);
  }

  lemma {:induction false} BodyIs(s: seq<byte>, n: nat)
    requires n <= |s| && PAD !in s[..n]
    ensures s[..n] <= Body(s) && (n == |s| || s[n] == PAD ==> Body(s) == s[..n])
  {
    if n > 0 {
      assert s[0] == s[..n][0];
      assert s[..n][1..] == s[1..][..n - 1];
      BodyIs(s[1..], n - 1);
      assert s[..n] == [s[0]] + s[1..][..n - 1];
    }
  }

  // Shifting a symbol into the accumulator and draining a byte when there is
  // one moves bits from the token to the output and loses none.
  lemma AccumulateStep(accumulator: nat, bits: nat, v: nat, w: nat)
    requires accumulator < Pow2(bits) && bits < 8 && v < Pow2(w) && 5 <= w <= 6
    ensures var x := Shl(accumulator, w) + v;
            var all := ToBits(accumulator, bits) + ToBits(v, w);
            && x < Pow2(bits + w) && ToBits(x, bits + w) == all
            && (bits + w >= 8 ==>
                  var left := bits + w - 8;
                  Shr(x, left) < 256 && Low(x, left) < Pow2(left) &&
                  all == ToBits(Shr(x, left), 8) + ToBits(Low(x, left), left))
  {
    hide ToBits, Shl, Shr, Low, Pow2;
    ShlIsProduct(accumulator, w);
    var x := Shl(accumulator, w) + v;
    ToBitsAppend(accumulator, bits, v, w);
    ProductBelow(accumulator, bits, v, w);
    if bits + w >= 8 {
      var left := bits + w - 8;
      ToBitsSplit(x, 8, left);
      ShrLow(x, left);
      ShrBelow(x, 8, left);
      Pow2Eight();
    }
  }

  lemma {:induction false} ProductBelow(a: nat, m: nat, b: nat, w: nat)
    requires a < Pow2(m) && b < Pow2(w)
    ensures a * Pow2(w) + b < Pow2(m + w)
  {
    if w == 0 {
      assert a * Pow2(0) == a;
    } else {
      ProductBelow(a, m, b / 2, w - 1);
      var p := Pow2(w - 1);
      assert a * (2 * p) == 2 * (a * p);
    }
  }

  lemma {:induction false} ShrBelow(x: nat, m: nat, k: nat)
    requires x < Pow2(m + k)
    ensures Shr(x, k) < Pow2(m)
  {
    if k > 0 {
      ShrBelow(x / 2, m, k - 1);
    }
  }

  // One turn of the accumulator on symbol value v.
  method Accumulate(output: seq<byte>, accumulator: nat, bits: nat, v: nat, w: nat)
    returns (output': seq<byte>, accumulator': nat, bits': nat)
    requires accumulator < Pow2(bits) && bits < 8 && v < Pow2(w) && 5 <= w <= 6
    ensures accumulator' < Pow2(bits') && bits' < 8
    ensures BytesBits(output') + ToBits(accumulator', bits') ==
            BytesBits(output) + ToBits(accumulator, bits) + ToBits(v, w)
  {
    hide ToBits, Shl, Shr, Low, Pow2;
    AccumulateStep(accumulator, bits, v, w);
    output' := output;
    accumulator' := Shl(accumulator, w) + v;
    bits' := bits + w;
    if bits' >= 8 {
      bits' := bits' - 8;
      output' := output' + [Shr(accumulator', bits')];
      BytesBitsLast(output', Shr(accumulator', bits'));
      assert output'[|output'| - 1 := Shr(accumulator', bits')] == output' && output'[..|output'| - 1] == output;
      accumulator' := Low(accumulator', bits');
    }
    ghost var a, b := ToBits(accumulator, bits), ToBits(v, w);
    assert BytesBits(output) + a + b == BytesBits(output) + (a + b);
  }

  ghost predicate Scanned(r: Radix, s: seq<byte>, n: nat, output: seq<byte>, accumulator: nat, bits: nat) {
    && n <= |s| && PAD !in s[..n] && AllValues(r, s[..n])
    && accumulator < Pow2(bits) && bits < 8
    && DigitBits(Width(r), ValuesOf(r, s[..n])) == BytesBits(output) + ToBits(accumulator, bits)
  }

  lemma ScannedStep(r: Radix, s: seq<byte>, n: nat)
    requires n < |s| && AllValues(r, s[..n]) && s[n] != PAD && Value(r, s[n]).Some?
    ensures AllValues(r, s[..n + 1])
    ensures DigitBits(Width(r), ValuesOf(r, s[..n + 1])) ==
            DigitBits(Width(r), ValuesOf(r, s[..n])) + ToBits(Value(r, s[n]).value, Width(r))
  {
    hide Value, ToBits;
    assert s[..n + 1] == s[..n] + [s[n]];
    var ds := ValuesOf(r, s[..n + 1]);
    assert ds[..n] == ValuesOf(r, s[..n]);
  }

  lemma BitsOverBytes(m: nat, k: nat, t: nat)
    requires m == 8 * k + t && t < 8
    ensures m % 8 == t
  {
  }

  // The bits left in the accumulator are the token's tail, so requiring it to
  // be zero requires the tail to be zero.
  lemma TailIsAccumulator(r: Radix, s: seq<byte>, n: nat, output: seq<byte>, accumulator: nat, bits: nat)
    requires Scanned(r, s, n, output, accumulator, bits)
    ensures bits == TailBits(r, n)
    ensures accumulator == 0 <==> ToBits(accumulator, bits) == Zeros(bits)
  {
    hide ToBits, Value;
    BitsOverBytes(Width(r) * n, |output|, bits);
    LowZeroBits(accumulator, bits, bits);
    LowOfSmall(accumulator, bits);
    if ToBits(accumulator, bits) == Zeros(bits) {
      assert Clear(ToBits(accumulator, bits), 0);
    }
  }

  // What a finished scan says about every candidate output.
  lemma ScanVerdict(r: Radix, s: seq<byte>, n: nat, output: seq<byte>, accumulator: nat, bits: nat, bytes: seq<byte>)
    requires |s| >= 8 && Scanned(r, s, n, output, accumulator, bits)
    requires AllPads(s[n..])
    ensures Accepts(r, s, bytes) <==>
      && RemainderOk(r, n % Group(r))
      && (n == |s| || (|s| % Group(r) == 0 && |s| - n == ExpectedPads(r, n % Group(r))))
      && accumulator == 0 && output != [] && bytes == output
  {
    hide ToBits, Value, RemainderOk, ExpectedPads, BytesBits, DigitBits;
    BodyIs(s, n);
    assert n < |s| ==> s[n] == s[n..][0];
    assert Body(s) == s[..n];
    TailIsAccumulator(r, s, n, output, accumulator, bits);
    var all := DigitBits(Width(r), ValuesOf(r, s[..n]));
    if all == BytesBits(bytes) + Zeros(bits) {
      assert BytesBits(bytes) == all[..|all| - bits] == BytesBits(output);
      assert Zeros(bits) == all[|all| - bits..] == ToBits(accumulator, bits);
      BytesBitsInjective(bytes, output);
    }
  }

  method DecodeDense(input: seq<byte>, r: Radix) returns (ok: bool, output: seq<byte>)
    ensures ok ==> Accepts(r, input, output)
    ensures !ok ==> forall bytes :: !Accepts(r, input, bytes)
  {
    hide Accepts, Scanned, Value, ToBits, BytesBits, RemainderOk, ExpectedPads, Body;
    output := [];
    TooShort(r, input);
    if |input| < 8 {
      return false, output;
    }
    var symbols, pads, accumulator, bits, seenPad := 0, 0, 0, 0, false;
    ScannedStart(r, input);
    var i := 0;
    while i < |input|
      invariant 0 <= symbols <= i <= |input| && pads == i - symbols && seenPad == (pads > 0)
      invariant bits >= 0 && accumulator >= 0
      invariant Scanned(r, input, symbols, output, accumulator, bits)
      invariant AllPads(input[symbols..i])
    {
      if input[i] == PAD {
        seenPad := true;
        pads := pads + 1;
        assert input[symbols..i + 1] == input[symbols..i] + [PAD];
      } else {
        var value := Value(r, input[i]);
        if seenPad || value.None? {
          BadSymbol(r, input, symbols, i, output, accumulator, bits);
          return false, output;
        }
        output, accumulator, bits := AccumulateSymbol(r, input, symbols, output, accumulator, bits);
        symbols := symbols + 1;
      }
      i := i + 1;
    }
    assert input[symbols..i] == input[symbols..];
    forall bytes {
      ScanVerdict(r, input, symbols, output, accumulator, bits, bytes);
    }
    var remainder := symbols % Group(r);
    if !RemainderOk(r, remainder) {
      return false, output;
    }
    if pads != 0 && (|input| % Group(r) != 0 || pads != ExpectedPads(r, remainder)) {
      return false, output;
    }
    if accumulator != 0 {
      return false, output;
    }
    return output != [], output;
  }

  method AccumulateSymbol(r: Radix, input: seq<byte>, symbols: nat, output: seq<byte>, accumulator: nat, bits: nat)
    returns (output': seq<byte>, accumulator': nat, bits': nat)
    requires symbols < |input| && Scanned(r, input, symbols, output, accumulator, bits)
    requires input[symbols] != PAD && Value(r, input[symbols]).Some?
    ensures Scanned(r, input, symbols + 1, output', accumulator', bits')
  {
    hide Value, ToBits, BytesBits, DigitBits, AllValues;
    var v := Value(r, input[symbols]).value;
    output', accumulator', bits' := Accumulate(output, accumulator, bits, v, Width(r));
    ScannedStep(r, input, symbols);
    assert input[..symbols + 1] == input[..symbols] + [input[symbols]];
  }

  lemma ScannedStart(r: Radix, s: seq<byte>)
    ensures Scanned(r, s, 0, [], 0, 0)
  {
  }

  lemma TooShort(r: Radix, s: seq<byte>)
    ensures |s| < 8 ==> forall bytes :: !Accepts(r, s, bytes)
  {
  }

  // A symbol after a pad, or outside the alphabet, rejects the token.
  lemma BadSymbol(r: Radix, s: seq<byte>, n: nat, i: nat, output: seq<byte>, accumulator: nat, bits: nat)
    requires n <= i < |s| && Scanned(r, s, n, output, accumulator, bits) && AllPads(s[n..i])
    requires s[i] != PAD && (n < i || Value(r, s[i]).None?)
    ensures forall bytes :: !Accepts(r, s, bytes)
  {
    hide Value, ToBits, BytesBits, DigitBits;
    BodyIs(s, n);
    if n < i {
      assert s[n] == s[n..i][0];
      assert s[n..][i - n] == s[i];
    } else {
      assert PAD !in s[..n + 1] by {
        assert s[..n + 1] == s[..n] + [s[n]];
      }
      BodyIs(s, n + 1);
      assert Body(s)[n] == s[..n + 1][n] == s[n];
    }
  }

  // ----- the decoder is the inverse of the encoder -----

  // The token is exactly an encoding of these bytes, padded or not.
  ghost predicate Canonical(r: Radix, token: seq<byte>, bytes: seq<byte>) {
    FoldAll(r, token) == Unpadded(r, bytes) || FoldAll(r, token) == Padded(r, bytes)
  }

  lemma EncodeDigitsBits(r: Radix, bytes: seq<byte>)
    ensures var m := 8 * |bytes|;
            |EncodeDigits(r, bytes)| == SymbolCount(Width(r), m) &&
            DigitBits(Width(r), EncodeDigits(r, bytes)) == BytesBits(bytes) + Zeros(Slack(Width(r), m))
  {
    hide BytesBits, Slack, SymbolCount, Chunk;
    var bits, w := BytesBits(bytes), Width(r);
    ChunkBits(w, bits + Zeros(Slack(w, |bits|)), SymbolCount(w, |bits|));
  }

  // Digits that spell the bytes and a short zero tail are the encoder's.
  lemma DigitsAreEncoding(r: Radix, ds: seq<nat>, bytes: seq<byte>, t: nat)
    requires Digits(Width(r), ds) && t < Width(r)
    requires DigitBits(Width(r), ds) == BytesBits(bytes) + Zeros(t)
    ensures ds == EncodeDigits(r, bytes)
  {
    hide DigitBits, BytesBits, EncodeDigits, Slack, SymbolCount;
    var w, m := Width(r), 8 * |bytes|;
    SlackUnique(w, m, |ds|);
    EncodeDigitsBits(r, bytes);
    DigitBitsInjective(w, ds, EncodeDigits(r, bytes));
  }

  lemma FoldSymbols(r: Radix, body: seq<byte>)
    requires AllValues(r, body)
    ensures FoldAll(r, body) == Symbols(r, ValuesOf(r, body))
  {
    hide Value, Fold, Symbol;
    forall i | 0 <= i < |body|
      ensures Fold(r, body[i]) == Symbol(r, ValuesOf(r, body)[i])
    {
      ValueSymbol(r, body[i]);
    }
  }

  lemma UnfoldSymbols(r: Radix, body: seq<byte>, ds: seq<nat>)
    requires Digits(Width(r), ds) && FoldAll(r, body) == Symbols(r, ds)
    ensures AllValues(r, body) && ValuesOf(r, body) == ds && PAD !in body
  {
    hide Value, Fold, Symbol;
    assert |body| == |ds|;
    forall i | 0 <= i < |body|
      ensures Value(r, body[i]) == Some(ds[i])
    {
      assert Fold(r, body[i]) == FoldAll(r, body)[i] == Symbol(r, ds[i]);
      ValueSymbol(r, body[i]);
      SymbolValue(r, ds[i]);
    }
  }

  lemma FoldPads(r: Radix, tail: seq<byte>)
    ensures FoldAll(r, tail) == Pads(|tail|) <==> AllPads(tail)
  {
    hide Fold;
    forall i | 0 <= i < |tail|
      ensures Fold(r, tail[i]) == PAD <==> tail[i] == PAD
    {
      ValueSymbol(r, tail[i]);
    }
    if FoldAll(r, tail) == Pads(|tail|) {
      forall i | 0 <= i < |tail|
        ensures tail[i] == PAD
      {
        assert FoldAll(r, tail)[i] == Pads(|tail|)[i];
      }
    }
  }

  lemma FoldSplit(r: Radix, s: seq<byte>, n: nat)
    requires n <= |s|
    ensures FoldAll(r, s) == FoldAll(r, s[..n]) + FoldAll(r, s[n..])
  {
  }

  lemma PaddedLength(r: Radix, n: nat)
    ensures (n + Slack(Group(r), n)) % Group(r) == 0
  {
    hide Slack;
    SlackMod8(n);
    SlackMod4(n);
  }

  lemma AcceptsIsCanonical(r: Radix, s: seq<byte>, bytes: seq<byte>)
    requires Accepts(r, s, bytes)
    ensures Canonical(r, s, bytes)
  {
    hide Value, Fold, Symbol, DigitBits, EncodeDigits, Slack, RemainderOk, ExpectedPads, BytesBits;
    var body := Body(s);
    var n := |body|;
    RemainderTable(r, n);
    DigitsAreEncoding(r, ValuesOf(r, body), bytes, TailBits(r, n));
    FoldSymbols(r, body);
    FoldSplit(r, s, n);
    FoldPads(r, s[n..]);
    assert n == |s| ==> s[n..] == [] && FoldAll(r, s) == FoldAll(r, body);
  }

  lemma CanonicalIsAccepted(r: Radix, s: seq<byte>, bytes: seq<byte>)
    requires |s| >= 8 && bytes != [] && Canonical(r, s, bytes)
    ensures Accepts(r, s, bytes)
  {
    hide Value, Fold, Symbol, DigitBits, EncodeDigits, Slack, RemainderOk, ExpectedPads, BytesBits, Body, SymbolCount;
    var ds := EncodeDigits(r, bytes);
    var n, m, w := |ds|, 8 * |bytes|, Width(r);
    EncodeDigitsBits(r, bytes);
    assert Slack(w, m) == w * n - m && w * n == m + Slack(w, m);
    BitsOverBytes(w * n, |bytes|, Slack(w, m));
    RemainderTable(r, n);
    PaddedLength(r, n);
    FoldSplit(r, s, n);
    if FoldAll(r, s) == Unpadded(r, bytes) {
      assert s[..n] == s;
    } else {
      assert FoldAll(r, s[..n]) == Padded(r, bytes)[..n] == Symbols(r, ds);
      assert FoldAll(r, s[n..]) == Padded(r, bytes)[n..] == Pads(|s| - n);
    }
    UnfoldSymbols(r, s[..n], ds);
    FoldPads(r, s[n..]);
    assert n < |s| ==> s[n] == s[n..][0];
    BodyIs(s, n);
    assert Body(s) == s[..n];
  }

  // Above the length floor a token is accepted with output `bytes` exactly
  // when it is a canonical encoding of them.
  lemma DecoderInvertsEncoder(r: Radix, s: seq<byte>, bytes: seq<byte>)
    requires |s| >= 8 && bytes != []
    ensures Accepts(r, s, bytes) <==> Canonical(r, s, bytes)
  {
    hide Accepts, Canonical;
    if Accepts(r, s, bytes) {
      AcceptsIsCanonical(r, s, bytes);
    }
    if Canonical(r, s, bytes) {
      CanonicalIsAccepted(r, s, bytes);
    }
  }

  // Different byte strings, of any length, have different encodings.
  lemma EncodeInjective(r: Radix, a: seq<byte>, b: seq<byte>)
    requires Unpadded(r, a) == Unpadded(r, b)
    ensures a == b
  {
    hide EncodeDigits, BytesBits, SymbolCount, Slack, DigitBits;
    EncodeDigitsBits(r, a);
    EncodeDigitsBits(r, b);
    var x, y := EncodeDigits(r, a), EncodeDigits(r, b);
    SymbolsInjective(r, x, y);
    var all := DigitBits(Width(r), x);
    assert |a| == |b|;
    assert BytesBits(a) == all[..8 * |a|] == BytesBits(b);
    BytesBitsInjective(a, b);
  }

  lemma SymbolsInjective(r: Radix, a: seq<nat>, b: seq<nat>)
    requires Digits(Width(r), a) && Digits(Width(r), b) && Symbols(r, a) == Symbols(r, b)
    ensures a == b
  {
    hide Symbol, Value;
    forall i | 0 <= i < |a|
      ensures a[i] == b[i]
    {
      assert Symbols(r, a)[i] == Symbols(r, b)[i];
      SymbolValue(r, a[i]);
      SymbolValue(r, b[i]);
    }
  }

  lemma UnpaddedFolded(r: Radix, bytes: seq<byte>)
    ensures FoldAll(r, Unpadded(r, bytes)) == Unpadded(r, bytes)
  {
    hide Value, Fold, Symbol;
    var ds := EncodeDigits(r, bytes);
    forall i | 0 <= i < |ds|
      ensures Fold(r, Symbol(r, ds[i])) == Symbol(r, ds[i])
    {
      SymbolValue(r, ds[i]);
    }
  }

  // ----- base 16 -----

  function HexValue(c: byte): (v: Option<nat>)
    ensures v.Some? ==> v.value < 16
  {
    if 48 <= c <= 57 then Some(c - 48)
    else if 97 <= c <= 102 then Some(c - 97 + 10)
    else if 65 <= c <= 70 then Some(c - 65 + 10)
    else None
  }

  function HexSymbol(v: nat): (c: byte)
    requires v < 16
    ensures HexValue(c) == Some(v) && Upper(c) == c
  {
    if v < 10 then 48 + v else 65 + (v - 10)
  }

  function HexPair(b: byte): (s: seq<byte>)
    ensures |s| == 2
  {
    [HexSymbol(b / 16), HexSymbol(b % 16)]
  }

  function Encode16(bytes: seq<byte>): (s: seq<byte>)
    ensures |s| == 2 * |bytes|
  {
    if bytes == [] then [] else Encode16(bytes[..|bytes| - 1]) + HexPair(bytes[|bytes| - 1])
  }

  function UpperAll(s: seq<byte>): (u: seq<byte>)
    ensures |u| == |s|
  {
    seq(|s|, i requires 0 <= i < |s| => Upper(s[i]))
  }

  // Two digits decode to a byte exactly when they are its encoding, up to case.
  lemma HexPairIff(hi: byte, lo: byte, b: byte)
    ensures [Upper(hi), Upper(lo)] == HexPair(b) <==>
      HexValue(hi).Some? && HexValue(lo).Some? && HexValue(hi).value * 16 + HexValue(lo).value == b
  {
    assert [Upper(hi), Upper(lo)][0] == Upper(hi);
    assert [Upper(hi), Upper(lo)][1] == Upper(lo);
    HexDigitIff(hi, b / 16);
    HexDigitIff(lo, b % 16);
    if HexValue(hi).Some? && HexValue(lo).Some? {
      assert (HexValue(hi).value * 16 + HexValue(lo).value) / 16 == HexValue(hi).value;
    }
  }

  lemma HexDigitIff(c: byte, v: nat)
    requires v < 16
    ensures Upper(c) == HexSymbol(v) <==> HexValue(c) == Some(v)
  {
  }

  // The token is the encoding of these bytes, in any case, and long enough.
  ghost predicate HexAccepts(s: seq<byte>, bytes: seq<byte>) {
    |s| >= 12 && UpperAll(s) == Encode16(bytes)
  }

  method DecodeHex(input: seq<byte>) returns (ok: bool, output: seq<byte>)
    ensures ok ==> HexAccepts(input, output)
    ensures !ok ==> forall bytes :: !HexAccepts(input, bytes)
  {
    hide Upper, HexValue;
    output := [];
    OddIsNotHex(input);
    if |input| < 12 || |input| % 2 != 0 {
      return false, output;
    }
    var i := 0;
    while i < |input|
      invariant 0 <= i <= |input| && i % 2 == 0 && i == 2 * |output|
      invariant UpperAll(input)[..i] == Encode16(output)
    {
      var hi, lo := HexValue(input[i]), HexValue(input[i + 1]);
      if hi.None? || lo.None? {
        BadHexPair(input, i);
        return false, output;
      }
      var b := hi.value * 16 + lo.value;
      HexPairIff(input[i], input[i + 1], b);
      UpperStep(input, i);
      assert (output + [b])[..|output|] == output;
      output := output + [b];
      i := i + 2;
    }
    assert UpperAll(input)[..i] == UpperAll(input);
    return true, output;
  }

  lemma UpperStep(s: seq<byte>, i: nat)
    requires i + 1 < |s|
    ensures UpperAll(s)[..i + 2] == UpperAll(s)[..i] + [Upper(s[i]), Upper(s[i + 1])]
  {
    hide Upper;
  }

  lemma OddIsNotHex(input: seq<byte>)
    ensures |input| < 12 || |input| % 2 != 0 ==> forall bytes :: !HexAccepts(input, bytes)
  {
  }

  lemma {:induction false} Encode16At(bytes: seq<byte>, k: nat)
    requires k < |bytes|
    ensures Encode16(bytes)[2 * k..2 * k + 2] == HexPair(bytes[k])
  {
    if k < |bytes| - 1 {
      Encode16At(bytes[..|bytes| - 1], k);
    }
  }

  lemma BadHexPair(input: seq<byte>, i: nat)
    requires i % 2 == 0 && i + 1 < |input|
    requires HexValue(input[i]).None? || HexValue(input[i + 1]).None?
    ensures forall bytes :: !HexAccepts(input, bytes)
  {
    hide Upper, HexValue, HexPair;
    forall bytes | HexAccepts(input, bytes)
      ensures false
    {
      Encode16At(bytes, i / 2);
      assert UpperAll(input)[i..i + 2] == [Upper(input[i]), Upper(input[i + 1])];
      HexPairIff(input[i], input[i + 1], bytes[i / 2]);
    }
  }

  lemma {:induction false} Encode16Injective(a: seq<byte>, b: seq<byte>)
    requires Encode16(a) == Encode16(b)
    ensures a == b
  {
    forall k: nat | k < |a|
      ensures a[k] == b[k]
    {
      Encode16At(a, k);
      Encode16At(b, k);
      HexPairInjective(a[k], b[k]);
    }
  }

  lemma HexPairInjective(a: byte, b: byte)
    requires HexPair(a) == HexPair(b)
    ensures a == b
  {
    assert HexPair(a)[0] == HexPair(b)[0] && HexPair(a)[1] == HexPair(b)[1];
    assert HexValue(HexPair(a)[0]) == Some(a / 16) && HexValue(HexPair(a)[1]) == Some(a % 16);
    assert HexValue(HexPair(b)[0]) == Some(b / 16) && HexValue(HexPair(b)[1]) == Some(b % 16);
  }
}
