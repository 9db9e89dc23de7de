/** The surface module's own radix decoder, and its agreement with the filter's. */
module Surface {
  import opened Bits
  import opened Bitstream
  import opened Radix

  datatype Spelling = Rfc64 | Rfc32 | Crockford

  function SpellingWidth(p: Spelling): nat {
    if p.Rfc64? then 6 else 5
  }

  function RadixValue(p: Spelling, c: byte): (v: Option<nat>)
    ensures v.Some? ==> v.value < Pow2(SpellingWidth(p)) && v.value < 64
    ensures c == PAD ==> v.None?
  {
    Pow2Eight();
    if p.Rfc64? then
      if 65 <= c <= 90 then Some(c - 65)
      else if 97 <= c <= 122 then Some(c - 97 + 26)
      else if 48 <= c <= 57 then Some(c - 48 + 52)
      else if c == 43 then Some(62)
      else if c == 47 then Some(63)
      else None
    else if p.Rfc32? then
      if 65 <= c <= 90 then Some(c - 65)
      else if 50 <= c <= 55 then Some(c - 50 + 26)
      else None
    else
      if 48 <= c <= 57 then Some(c - 48)
      else if 65 <= c <= 72 then Some(c - 65 + 10)
      else if 74 <= c <= 75 then Some(c - 74 + 18)
      else if 77 <= c <= 78 then Some(c - 77 + 20)
      else if 80 <= c <= 84 then Some(c - 80 + 22)
      else if 86 <= c <= 90 then Some(c - 86 + 27)
      else None
  }

  predicate AllSpelled(p: Spelling, s: seq<byte>) {
    forall i :: 0 <= i < |s| ==> RadixValue(p, s[i]).Some?
  }

  function SpelledDigits(p: Spelling, s: seq<byte>): (ds: seq<nat>)
    requires AllSpelled(p, s)
    ensures |ds| == |s| && Digits(SpellingWidth(p), ds)
  {
    seq(|s|, i requires 0 <= i < |s| => RadixValue(p, s[i]).value)
  }

  // The padding rules of the padded spellings; `last` is the final symbol.
  predicate PaddingOk(p: Spelling, length: nat, symbols: nat, pads: nat, last: nat) {
    var group := if p.Rfc64? then 4 else 8;
    && length % group == 0 && (pads > 0 || symbols % group == 0)
    && (if p.Rfc64? then
          && pads <= 2 && (pads == 1 ==> symbols % 4 == 3) && (pads == 2 ==> symbols % 4 == 2)
          && (pads > 0 ==> Low(last, if pads == 1 then 2 else 4) == 0)
        else
          && pads <= 6
          && (pads > 0 ==>
                || (pads == 6 && symbols % 8 == 2) || (pads == 4 && symbols % 8 == 4)
                || (pads == 3 && symbols % 8 == 5) || (pads == 1 && symbols % 8 == 7)))
  }

  // First pass: count symbols and pads and remember the last symbol.
  method CountSymbols(input: seq<byte>, p: Spelling) returns (ok: bool, symbols: nat, last: nat)
    ensures ok <==> InAlphabet(p, input)
    ensures ok ==> symbols == |Body(input)|
    ensures ok && symbols > 0 ==> RadixValue(p, input[symbols - 1]) == Some(last)
  {
    hide RadixValue, Body, InAlphabet;
    symbols, last := 0, 0;
    var i, seenPad := 0, false;
    while i < |input|
      invariant 0 <= symbols <= i <= |input| && seenPad == (symbols < i)
      invariant PAD !in input[..symbols] && AllSpelled(p, input[..symbols])
      invariant AllPads(input[symbols..i])
      invariant symbols > 0 ==> RadixValue(p, input[symbols - 1]) == Some(last)
    {
      if input[i] == PAD {
        seenPad := true;
        assert input[symbols..i + 1] == input[symbols..i] + [PAD];
      } else {
        var v := RadixValue(p, input[i]);
        if seenPad || v.None? {
          Rejected(p, input, symbols, i);
          return false, symbols, last;
        }
        last := v.value;
        assert input[..symbols + 1] == input[..symbols] + [input[symbols]];
        symbols := symbols + 1;
      }
      i := i + 1;
    }
    assert input[symbols..i] == input[symbols..];
    Accepted(p, input, symbols);
    return true, symbols, last;
  }

  // A stray symbol, or any symbol after a pad, is outside the alphabet.
  lemma Rejected(p: Spelling, input: seq<byte>, symbols: nat, i: nat)
    requires symbols <= i < |input| && PAD !in input[..symbols] && AllPads(input[symbols..i]) && input[i] != PAD
    requires symbols == i ==> RadixValue(p, input[i]).None?
    ensures !InAlphabet(p, input)
  {
    hide RadixValue, Body;
    if symbols < i {
      BodyIs(input, symbols);
      assert input[symbols] == input[symbols..i][0];
      assert input[symbols..][i - symbols] == input[i];
    } else {
      BodyIs(input, i + 1);
      assert Body(input)[i] == input[..i + 1][i];
    }
  }

  lemma Accepted(p: Spelling, input: seq<byte>, symbols: nat)
    requires symbols <= |input| && PAD !in input[..symbols]
    requires AllSpelled(p, input[..symbols]) && AllPads(input[symbols..])
    ensures InAlphabet(p, input) && symbols == |Body(input)|
  {
    hide RadixValue, Body;
    BodyIs(input, symbols);
    assert symbols < |input| ==> input[symbols] == input[symbols..][0];
  }

  // Second pass: append every symbol, most significant bit first.
  method AppendSymbols(input: seq<byte>, symbols: nat, p: Spelling, output: Bitstream)
    requires output.Valid() && output.Bits() == []
    requires symbols <= |input| && AllSpelled(p, input[..symbols])
    requires SpellingWidth(p) * symbols <= SIZE_MAX
    modifies output, output.bytes, output.bytes.data
    ensures output.Valid()
    ensures output.Bits() == DigitBits(SpellingWidth(p), SpelledDigits(p, input[..symbols]))
  {
    hide RadixValue, DigitBits, Packed, Unpack;
    ghost var w := SpellingWidth(p);
    EmptyDigits(w, SpelledDigits(p, input[..0]));
    var i := 0;
    while i < symbols
      invariant i <= symbols && output.Valid()
      invariant output.bytes.data == old(output.bytes.data) || fresh(output.bytes.data)
      invariant output.Bits() == DigitBits(w, SpelledDigits(p, input[..i]))
    {
      SpelledStep(p, input, i);
      WholeFits(w, i, symbols);
      var v := RadixValue(p, input[i]).value;
      var status := output.AppendBits(v, SpellingWidth(p), false);
      i := i + 1;
    }
  }

  lemma EmptyDigits(w: nat, ds: seq<nat>)
    requires ds == []
    ensures DigitBits(w, ds) == []
  {
  }

  lemma WholeFits(w: nat, i: nat, n: nat)
    requires i < n && w * n <= SIZE_MAX
    ensures w * i <= SIZE_MAX - w
  {
    assert w * n >= w * (i + 1);
  }

  lemma SpelledStep(p: Spelling, s: seq<byte>, n: nat)
    requires n < |s| && AllSpelled(p, s[..n]) && RadixValue(p, s[n]).Some?
    ensures AllSpelled(p, s[..n + 1])
    ensures DigitBits(SpellingWidth(p), SpelledDigits(p, s[..n + 1])) ==
            DigitBits(SpellingWidth(p), SpelledDigits(p, s[..n])) + ToBits(RadixValue(p, s[n]).value, SpellingWidth(p))
  {
    hide RadixValue, ToBits;
    assert s[..n + 1] == s[..n] + [s[n]];
    var ds := SpelledDigits(p, s[..n + 1]);
    assert ds[..n] == SpelledDigits(p, s[..n]);
  }

  function WholeBits(p: Spelling, symbols: nat): (m: nat)
    ensures m <= SpellingWidth(p) * symbols && m % 8 == 0
  {
    SpellingWidth(p) * symbols / 8 * 8
  }

  predicate InAlphabet(p: Spelling, input: seq<byte>) {
    AllSpelled(p, Body(input)) && AllPads(input[|Body(input)|..])
  }

  // Everything the decoder checks before it appends a bit.
  predicate WellSpelled(p: Spelling, input: seq<byte>) {
    var body := Body(input);
    var n, pads := |body|, |input| - |body|;
    && InAlphabet(p, input)
    && (if p.Crockford? then pads == 0
        else
          var last := if n > 0 then RadixValue(p, body[n - 1]).value else 0;
          && PaddingOk(p, |input|, n, pads, last)
          && (SpellingWidth(p) * n == WholeBits(p, n) || Low(last, SpellingWidth(p) * n % 8) == 0))
  }

  // The padded spellings keep whole bytes only.
  function SurfaceBits(p: Spelling, input: seq<byte>): seq<bool>
    requires WellSpelled(p, input)
  {
    var all := DigitBits(SpellingWidth(p), SpelledDigits(p, Body(input)));
    if p.Crockford? then all else all[..WholeBits(p, |Body(input)|)]
  }

  method DecodeRadix(input: seq<byte>, p: Spelling, output: Bitstream) returns (status: Status)
    requires output.Valid() && output.Bits() == []
    modifies output, output.bytes, output.bytes.data
    ensures output.Valid()
    ensures status == if input == [] then Enotfound
                      else if !InAlphabet(p, input) then Einval
                      else if |Body(input)| > SIZE_MAX / SpellingWidth(p) then Enomem
                      else if !WellSpelled(p, input) then Einval
                      else if SurfaceBits(p, input) == [] then Enotfound else Ok
    ensures output.Bits() == if (status == Ok || status == Enotfound) && input != [] then SurfaceBits(p, input) else []
  {
    hide RadixValue, Body, PaddingOk, DigitBits, Packed, Unpack;
    if input == [] {
      return Enotfound;
    }
    var ok, symbols, last := CountSymbols(input, p);
    if !ok {
      return Einval;
    }
    assert Body(input) == input[..symbols];
    var pads, width := |input| - symbols, SpellingWidth(p);
    if symbols > SIZE_MAX / width {
      return Enomem;
    }
    if symbols == 0 {
      last := 0;
    }
    if !p.Crockford? {
      if !PaddingOk(p, |input|, symbols, pads, last) {
        return Einval;
      }
    } else if pads != 0 {
      return Einval;
    }
    WordFits(width, symbols);
    var wholeBits := WholeBits(p, symbols);
    if !p.Crockford? && width * symbols != wholeBits && Low(last, width * symbols % 8) != 0 {
      return Einval;
    }
    AppendSymbols(input, symbols, p, output);
    if !p.Crockford? {
      output.Truncate(wholeBits);
    }
    return if output.bitLength != 0 then Ok else Enotfound;
  }

  lemma WordFits(w: nat, n: nat)
    requires 5 <= w <= 6 && n <= SIZE_MAX / w
    ensures w * n <= SIZE_MAX
  {
  }

  // ----- agreement with the filter's accumulator decoder -----

  function SameRadix(p: Spelling): Radix
    requires !p.Crockford?
  {
    if p.Rfc64? then Base64 else Base32
  }

  // The two alphabets agree on every byte but the lower-case Base32 letters.
  lemma SameValue(p: Spelling, c: byte)
    requires !p.Crockford? && Fold(SameRadix(p), c) == c
    ensures RadixValue(p, c) == Value(SameRadix(p), c)
  {
    Pow2Eight();
  }

  lemma SamePadding(p: Spelling, length: nat, n: nat, pads: nat, last: nat)
    requires !p.Crockford? && length == n + pads && length % Group(SameRadix(p)) == 0
    requires SpellingWidth(p) * n == WholeBits(p, n) || Low(last, SpellingWidth(p) * n % 8) == 0
    ensures var r := SameRadix(p);
            PaddingOk(p, length, n, pads, last) <==>
            RemainderOk(r, n % Group(r)) && (pads == 0 || pads == ExpectedPads(r, n % Group(r)))
  {
    if p.Rfc64? {
      TailOf6(n);
    }
  }

  // Clear low bits of the last symbol are a zero tail of the whole token.
  lemma LastSymbolTail(w: nat, ds: seq<nat>, t: nat)
    requires ds != [] && t <= w
    ensures var all := DigitBits(w, ds);
            t <= |all| && (Low(ds[|ds| - 1], t) == 0 <==> all == all[..|all| - t] + Zeros(t))
  {
    hide ToBits, Low;
    var last := ds[|ds| - 1];
    var all, head := DigitBits(w, ds), DigitBits(w, ds[..|ds| - 1]);
    var tail := ToBits(last, w);
    assert all == head + tail;
    LowZeroBits(last, w, t);
    assert all[|all| - t..] == tail[w - t..];
    if Clear(tail, w - t) {
      assert all[|all| - t..] == Zeros(t);
    }
    if all == all[..|all| - t] + Zeros(t) {
      assert tail[w - t..] == Zeros(t);
      forall k | w - t <= k < |tail|
        ensures !tail[k]
      {
        assert tail[k] == tail[w - t..][k - (w - t)] == Zeros(t)[k - (w - t)];
      }
    }
  }

  // From eight symbols on, what this decoder accepts is exactly what the
  // filter's accepts in whole groups and, for Base32, in upper case.
  lemma DecodersAgree(p: Spelling, input: seq<byte>, bytes: seq<byte>)
    requires !p.Crockford?
    ensures |input| >= 8 && bytes != [] && WellSpelled(p, input) && SurfaceBits(p, input) == BytesBits(bytes) <==>
            Accepts(SameRadix(p), input, bytes) && |input| % Group(SameRadix(p)) == 0 &&
            FoldAll(SameRadix(p), input) == input
  {
    hide WellSpelled, SurfaceBits, FoldAll, BytesBits, Body;
    var r := SameRadix(p);
    if WellSpelled(p, input) {
      SpelledFolded(p, input);
    }
    if |input| >= 8 && bytes != [] && |input| % Group(r) == 0 && FoldAll(r, input) == input {
      SameAcceptance(p, input, bytes);
    }
  }

  // The surface alphabets hold no lower-case letters of Base32.
  lemma SpelledFolded(p: Spelling, input: seq<byte>)
    requires !p.Crockford? && WellSpelled(p, input)
    ensures |input| % Group(SameRadix(p)) == 0 && FoldAll(SameRadix(p), input) == input
  {
    hide Low, WholeBits;
    var n := |Body(input)|;
    forall i | 0 <= i < |input|
      ensures Fold(SameRadix(p), input[i]) == input[i]
    {
      BodyPrefix(input);
      if i < n {
        assert Body(input)[i] == input[i];
        assert RadixValue(p, Body(input)[i]).Some?;
      } else {
        assert input[n..][i - n] == PAD;
      }
    }
  }

  lemma {:induction false} BodyPrefix(s: seq<byte>)
    ensures Body(s) <= s
  {
    if s != [] && s[0] != PAD {
      BodyPrefix(s[1..]);
    }
  }

  lemma SameAcceptance(p: Spelling, input: seq<byte>, bytes: seq<byte>)
    requires !p.Crockford? && |input| >= 8 && |input| % Group(SameRadix(p)) == 0 && bytes != []
    requires FoldAll(SameRadix(p), input) == input
    ensures Accepts(SameRadix(p), input, bytes) <==> WellSpelled(p, input) && SurfaceBits(p, input) == BytesBits(bytes)
  {
    hide RadixValue, Value, Fold, PaddingOk, RemainderOk, ExpectedPads, DigitBits, BytesBits, Body, Low;
    var r, body, w := SameRadix(p), Body(input), SpellingWidth(p);
    var n := |body|;
    forall i | 0 <= i < n
      ensures RadixValue(p, body[i]) == Value(r, body[i])
    {
      assert Fold(r, input[i]) == FoldAll(r, input)[i];
      SameValue(p, body[i]);
    }
    if AllSpelled(p, body) {
      assert SpelledDigits(p, body) == ValuesOf(r, body);
      AgreeOnDigits(p, input, bytes);
    }
  }

  lemma WholeBitsTail(p: Spelling, n: nat)
    ensures WholeBits(p, n) == SpellingWidth(p) * n - SpellingWidth(p) * n % 8
  {
  }

  // Bytes followed by a zero tail, said of the whole and of the two parts.
  lemma ZeroTail(all: seq<bool>, head: seq<bool>, t: nat)
    ensures all == head + Zeros(t) <==> t <= |all| && all[..|all| - t] == head && all == all[..|all| - t] + Zeros(t)
  {
    if all == head + Zeros(t) {
      assert all[..|all| - t] == head;
    }
  }

  lemma AgreeOnDigits(p: Spelling, input: seq<byte>, bytes: seq<byte>)
    requires !p.Crockford? && |input| >= 8 && |input| % Group(SameRadix(p)) == 0 && bytes != []
    requires AllSpelled(p, Body(input)) && AllValues(SameRadix(p), Body(input))
    requires SpelledDigits(p, Body(input)) == ValuesOf(SameRadix(p), Body(input))
    ensures Accepts(SameRadix(p), input, bytes) <==> WellSpelled(p, input) && SurfaceBits(p, input) == BytesBits(bytes)
  {
    hide RadixValue, Value, PaddingOk, RemainderOk, ExpectedPads, DigitBits, BytesBits, Body, Low, WholeBits, Zeros;
    hide AllSpelled, AllPads, AllValues, SpelledDigits, ValuesOf, Slack;
    var r, body, w := SameRadix(p), Body(input), SpellingWidth(p);
    var n, pads := |body|, |input| - |body|;
    var all := DigitBits(w, SpelledDigits(p, body));
    var t := w * n % 8;
    RemainderTable(r, n);
    ZeroTail(all, BytesBits(bytes), t);
    TailClear(p, body);
    WellSpelledMeans(p, input);
    hide WellSpelled, SurfaceBits, TailOk;
    if TailOk(p, body) {
      TailTest(p, body);
      SamePadding(p, |input|, n, pads, LastDigit(p, body));
    }
  }

  lemma TailTest(p: Spelling, body: seq<byte>)
    requires AllSpelled(p, body) && TailOk(p, body)
    ensures SpellingWidth(p) * |body| == WholeBits(p, |body|) ||
            Low(LastDigit(p, body), SpellingWidth(p) * |body| % 8) == 0
  {
  }

  lemma WellSpelledMeans(p: Spelling, input: seq<byte>)
    requires !p.Crockford? && AllSpelled(p, Body(input))
    ensures var body := Body(input);
            var n := |body|;
            WellSpelled(p, input) <==>
            AllPads(input[n..]) && PaddingOk(p, |input|, n, |input| - n, LastDigit(p, body)) && TailOk(p, body)
    ensures WellSpelled(p, input) ==>
            SurfaceBits(p, input) ==
            DigitBits(SpellingWidth(p), SpelledDigits(p, Body(input)))[..WholeBits(p, |Body(input)|)]
  {
    hide RadixValue, PaddingOk, DigitBits, Low, WholeBits;
  }

  // The last symbol's value, 0 where there is no symbol.
  function LastDigit(p: Spelling, body: seq<byte>): nat
    requires AllSpelled(p, body)
  {
    if |body| > 0 then RadixValue(p, body[|body| - 1]).value else 0
  }

  predicate TailOk(p: Spelling, body: seq<byte>)
    requires AllSpelled(p, body)
  {
    var bits := SpellingWidth(p) * |body|;
    bits == WholeBits(p, |body|) || Low(LastDigit(p, body), bits % 8) == 0
  }

  // The test on the last symbol is the zero tail of the whole token.
  lemma TailClear(p: Spelling, body: seq<byte>)
    requires AllSpelled(p, body)
    ensures var w := SpellingWidth(p);
            var t, all := w * |body| % 8, DigitBits(w, SpelledDigits(p, body));
            && t <= |all| && |all| - t == WholeBits(p, |body|)
            && (t <= w ==> (TailOk(p, body) <==> all == all[..|all| - t] + Zeros(t)))
  {
    hide RadixValue, DigitBits, Low, WholeBits, Zeros, AllSpelled, SpelledDigits;
    var w, n, ds := SpellingWidth(p), |body|, SpelledDigits(p, body);
    var all, t := DigitBits(w, ds), w * n % 8;
    WholeBitsTail(p, n);
    NoTail(all);
    if n > 0 {
      LastSpelled(p, body);
      if t <= w {
        LastSymbolTail(w, ds, t);
      }
    }
  }

  lemma NoTail(all: seq<bool>)
    ensures all == all[..|all| - 0] + Zeros(0)
  {
  }

  lemma LastSpelled(p: Spelling, s: seq<byte>)
    requires AllSpelled(p, s) && s != []
    ensures RadixValue(p, s[|s| - 1]) == Some(SpelledDigits(p, s)[|s| - 1])
  {
    hide RadixValue;
  }
}
