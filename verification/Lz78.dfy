/** The LZ78 parse as a function on bit strings: a greedy dictionary parse, the
    code it prices, and how many entries a stream can afford. */
module Lz78 {
  import opened Bits
  import opened Scorer
  import opened Log2

  type Word = seq<bool>

  predicate Known(words: seq<Word>, w: Word) {
    w == [] || w in words
  }

  // Walk on from a known prefix of length k while the next bit stays known.
  function Longest(words: seq<Word>, rest: Word, k: nat): (m: nat)
    requires k <= |rest|
    ensures k <= m <= |rest|
    decreases |rest| - k
  {
    if k < |rest| && Known(words, rest[..k + 1]) then Longest(words, rest, k + 1) else k
  }

  function Flatten(words: seq<Word>): Word {
    if words == [] then [] else Flatten(words[..|words| - 1]) + words[|words| - 1]
  }

  // words: the entries in order; tail: a final repeat of a known phrase;
  // limited: a new entry was needed but the dictionary was full.
  datatype Parse = Parse(words: seq<Word>, tail: Word, limited: bool)

  function ParseRest(rest: Word, words: seq<Word>, limit: nat): Parse
    decreases |rest|
  {
    if rest == [] then Parse(words, [], false)
    else
      var k := Longest(words, rest, 0);
      if k == |rest| then Parse(words, rest, false)
      else if |words| >= limit then Parse(words, [], true)
      else ParseRest(rest[k + 1..], words + [rest[..k + 1]], limit)
  }

  function ParseAll(bits: Word, limit: nat): Parse {
    ParseRest(bits, [], limit)
  }

  function Assessed(p: Parse): nat {
    |Flatten(p.words)| + |p.tail|
  }

  function Phrases(p: Parse): nat {
    |p.words| + (if p.tail == [] then 0 else 1)
  }

  // ----- what the dictionary looks like -----

  // Every entry is new, and is an earlier entry (or nothing) plus one bit.
  ghost predicate Dictionary(words: seq<Word>) {
    forall i :: 0 <= i < |words| ==> FreshEntry(words[..i], words[i])
  }

  ghost predicate FreshEntry(earlier: seq<Word>, w: Word) {
    w != [] && w !in earlier && Known(earlier, w[..|w| - 1])
  }

  lemma {:induction false} LongestKnown(words: seq<Word>, rest: Word, k: nat)
    requires k <= |rest| && Known(words, rest[..k])
    ensures Known(words, rest[..Longest(words, rest, k)])
    decreases |rest| - k
  {
    if k < |rest| && Known(words, rest[..k + 1]) {
      LongestKnown(words, rest, k + 1);
    }
  }

  lemma LongestStops(words: seq<Word>, rest: Word, k: nat)
    requires k <= |rest|
    ensures var m := Longest(words, rest, k);
            m < |rest| ==> !Known(words, rest[..m + 1])
    decreases |rest| - k
  {
    if k < |rest| && Known(words, rest[..k + 1]) {
      LongestStops(words, rest, k + 1);
    }
  }

  lemma {:induction false} KnownPrefix(words: seq<Word>, w: Word, k: nat)
    requires Dictionary(words) && Known(words, w) && k <= |w|
    ensures Known(words, w[..k])
    decreases |w|
  {
    if k < |w| {
      var i :| 0 <= i < |words| && words[i] == w;
      assert FreshEntry(words[..i], w);
      KnownPrefix(words, w[..|w| - 1], k);
      assert w[..|w| - 1][..k] == w[..k];
    } else {
      assert w[..k] == w;
    }
  }

  // The walk finds the longest known prefix, not just the first stop.
  lemma LongestIsLongest(words: seq<Word>, rest: Word, k: nat)
    requires Dictionary(words) && k <= |rest| && Known(words, rest[..k])
    ensures k <= Longest(words, rest, 0)
  {
    var m := Longest(words, rest, 0);
    if m < k {
      assert rest[..k][..m + 1] == rest[..m + 1];
      KnownPrefix(words, rest[..k], m + 1);
      LongestStops(words, rest, 0);
    }
  }

  lemma FlattenAppend(words: seq<Word>, w: Word)
    ensures Flatten(words + [w]) == Flatten(words) + w
  {
    assert (words + [w])[..|words|] == words;
  }

  lemma DictionaryAppend(words: seq<Word>, w: Word)
    requires Dictionary(words) && FreshEntry(words, w)
    ensures Dictionary(words + [w])
  {
    var next := words + [w];
    forall i | 0 <= i < |next|
      ensures FreshEntry(next[..i], next[i])
    {
      if i < |words| {
        assert next[..i] == words[..i];
      } else {
        assert next[..i] == words;
      }
    }
  }

  // One completed phrase: a fresh entry, taken off the front of the input.
  lemma PhraseStep(rest: Word, words: seq<Word>)
    requires Dictionary(words) && Longest(words, rest, 0) < |rest|
    ensures var m := Longest(words, rest, 0) + 1;
            FreshEntry(words, rest[..m]) && Dictionary(words + [rest[..m]]) &&
            Flatten(words + [rest[..m]]) + rest[m..] == Flatten(words) + rest
  {
    hide Longest, Flatten;
    var m := Longest(words, rest, 0) + 1;
    var w := rest[..m];
    assert rest[..0] == [];
    LongestKnown(words, rest, 0);
    LongestStops(words, rest, 0);
    assert w[..|w| - 1] == rest[..m - 1];
    DictionaryAppend(words, w);
    FlattenAppend(words, w);
    assert w + rest[m..] == rest;
  }

  // The parse keeps a dictionary, covers the input left to right, and stops
  // early only at a phrase boundary with a full dictionary.
  lemma {:induction false} ParseSound(rest: Word, words: seq<Word>, limit: nat)
    requires Dictionary(words) && |words| <= limit
    ensures var p := ParseRest(rest, words, limit);
            && words <= p.words && Dictionary(p.words) && |p.words| <= limit
            && Known(p.words, p.tail)
            && Flatten(p.words) + p.tail <= Flatten(words) + rest
            && (!p.limited ==> Flatten(p.words) + p.tail == Flatten(words) + rest)
            && (p.limited ==> |p.words| == limit && p.tail == [] && Assessed(p) < |Flatten(words)| + |rest|)
    decreases |rest|
  {
    hide Longest, Flatten, Dictionary, FreshEntry;
    if rest == [] {
      assert Flatten(words) + [] == Flatten(words);
    } else {
      var k := Longest(words, rest, 0);
      assert rest[..0] == [];
      LongestKnown(words, rest, 0);
      if k == |rest| {
        assert rest[..k] == rest;
      } else if |words| < limit {
        PhraseStep(rest, words);
        ParseSound(rest[k + 1..], words + [rest[..k + 1]], limit);
      }
    }
  }

  // Entry i is the longest phrase known before it, plus the next bit.
  lemma {:induction false} ParseGreedy(bits: Word, rest: Word, words: seq<Word>, limit: nat, i: nat)
    requires Dictionary(words) && |words| <= limit && Flatten(words) + rest == bits
    requires |words| <= i < |ParseRest(rest, words, limit).words|
    ensures var all := ParseRest(rest, words, limit).words;
            var start := |Flatten(all[..i])|;
            start <= |bits| &&
            var m := Longest(all[..i], bits[start..], 0);
            m < |bits| - start && all[i] == bits[start..][..m + 1]
    decreases |rest|
  {
    hide Longest, Flatten, Dictionary, FreshEntry;
    var m := Longest(words, rest, 0) + 1;
    var w := rest[..m];
    PhraseStep(rest, words);
    ParseSound(rest[m..], words + [w], limit);
    var all := ParseRest(rest, words, limit).words;
    assert all == ParseRest(rest[m..], words + [w], limit).words;
    if i == |words| {
      assert all[..i] == words && all[i] == w;
      assert bits[|Flatten(words)|..] == rest;
    } else {
      ParseGreedy(bits, rest[m..], words + [w], limit, i);
    }
  }

  // ----- the code being priced -----

  // 0 for the empty phrase, otherwise one past the entry's place.
  function Index(words: seq<Word>, w: Word): (i: nat)
    requires Known(words, w)
    ensures i <= |words|
    ensures Phrase(words, i) == w
  {
    if w == [] then 0
    else if words[|words| - 1] == w then |words|
    else Index(words[..|words| - 1], w)
  }

  function Phrase(words: seq<Word>, i: nat): Word
    requires i <= |words|
  {
    if i == 0 then [] else words[i - 1]
  }

  // Entry k names its parent among the k phrases known so far, then a bit.
  function Code(words: seq<Word>): (c: seq<bool>)
    requires Dictionary(words)
  {
    if words == [] then []
    else
      var k := |words|;
      var w := words[k - 1];
      assert FreshEntry(words[..k - 1], w);
      DictionaryPrefix(words, k - 1);
      Code(words[..k - 1]) + ToBits(Index(words[..k - 1], w[..|w| - 1]), CeilLog2(k)) + [w[|w| - 1]]
  }

  lemma DictionaryPrefix(words: seq<Word>, k: nat)
    requires Dictionary(words) && k <= |words|
    ensures Dictionary(words[..k])
  {
    forall i | 0 <= i < k
      ensures FreshEntry(words[..k][..i], words[..k][i])
    {
      assert words[..k][..i] == words[..i];
    }
  }

  function FullCode(p: Parse): seq<bool>
    requires Dictionary(p.words) && Known(p.words, p.tail)
  {
    Code(p.words) + (if p.tail == [] then [] else ToBits(Index(p.words, p.tail), CeilLog2(|p.words| + 1)))
  }

  // What the scorer adds up, phrase by phrase.
  function EntryBits(entries: nat): nat {
    if entries == 0 then 0 else EntryBits(entries - 1) + CeilLog2(entries) + 1
  }

  function CodeBits(p: Parse): nat {
    EntryBits(|p.words|) + (if p.tail == [] then 0 else CeilLog2(|p.words| + 1))
  }

  lemma {:induction false} CodeLength(words: seq<Word>)
    requires Dictionary(words)
    ensures |Code(words)| == EntryBits(|words|)
  {
    hide CeilLog2, Dictionary, FreshEntry, Index, ToBits;
    if words != [] {
      CodeOfLast(words);
      CodeLength(words[..|words| - 1]);
    }
  }

  // Reads the code back, knowing only how many bits were assessed.
  function Decode(code: seq<bool>, at: nat, words: seq<Word>, done: Word, n: nat): Option<Word>
    decreases n - |done|
  {
    if |done| >= n then Some(done)
    else
      var width := CeilLog2(|words| + 1);
      if at + width > |code| then None
      else
        var parent := FromBits(code[at..at + width]);
        if parent > |words| then None
        else
          var phrase := Phrase(words, parent);
          if |done| + |phrase| >= n then Some(done + phrase)
          else if at + width >= |code| then None
          else
            var w := phrase + [code[at + width]];
            Decode(code, at + width + 1, words + [w], done + w, n)
  }

  lemma FlattenPrefix(words: seq<Word>, k: nat)
    requires k <= |words|
    ensures Flatten(words[..k]) <= Flatten(words)
    decreases |words| - k
  {
    hide Flatten;
    if k < |words| {
      FlattenPrefix(words, k + 1);
      assert words[..k + 1] == words[..k] + [words[k]];
      FlattenAppend(words[..k], words[k]);
    } else {
      assert words[..k] == words;
    }
  }

  lemma CodeOfLast(words: seq<Word>)
    requires Dictionary(words) && words != []
    ensures var k := |words| - 1;
            var w := words[k];
            Dictionary(words[..k]) && FreshEntry(words[..k], w) &&
            Code(words) == Code(words[..k]) + ToBits(Index(words[..k], w[..|w| - 1]), CeilLog2(k + 1)) + [w[|w| - 1]]
  {
    DictionaryPrefix(words, |words| - 1);
    assert FreshEntry(words[..|words| - 1], words[|words| - 1]);
  }

  lemma {:induction false} CodePrefix(words: seq<Word>, k: nat)
    requires Dictionary(words) && k <= |words|
    ensures Dictionary(words[..k]) && Code(words[..k]) <= Code(words)
    decreases |words| - k
  {
    hide Code, Index, CeilLog2, ToBits, Dictionary, FreshEntry, Known;
    DictionaryPrefix(words, k);
    if k < |words| {
      CodePrefix(words, k + 1);
      CodeOfLast(words[..k + 1]);
      assert words[..k + 1][..k] == words[..k];
    } else {
      assert words[..k] == words;
    }
  }

  lemma IndexBits(index: nat, k: nat)
    requires index < k
    ensures FromBits(ToBits(index, CeilLog2(k))) == index
  {
    FromToBits(index, CeilLog2(k));
    LowOfSmall(index, CeilLog2(k));
  }

  // What the decoder does with one entry's code.
  lemma DecodeStep(code: seq<bool>, at: nat, words: seq<Word>, done: Word, n: nat, parent: nat, bit: bool)
    requires parent <= |words|
    requires var width := CeilLog2(|words| + 1);
             at + width < |code| && code[at..at + width] == ToBits(parent, width) && code[at + width] == bit
    requires |done| + |Phrase(words, parent)| < n
    ensures var w := Phrase(words, parent) + [bit];
            Decode(code, at, words, done, n) ==
            Decode(code, at + CeilLog2(|words| + 1) + 1, words + [w], done + w, n)
  {
    hide CeilLog2, FromBits, ToBits;
    IndexBits(parent, |words| + 1);
  }

  lemma EntrySlices(code: seq<bool>, front: seq<bool>, index: seq<bool>, bit: bool)
    requires front + index + [bit] <= code
    ensures |front| + |index| < |code|
    ensures code[|front|..|front| + |index|] == index && code[|front| + |index|] == bit
  {
    var part := front + index + [bit];
    assert forall i :: 0 <= i < |part| ==> code[i] == part[i];
  }

  // One step of the decoder rebuilds entry k.
  lemma {:induction false} DecodeEntry(p: Parse, k: nat)
    requires Dictionary(p.words) && Known(p.words, p.tail) && k < |p.words|
    ensures Dictionary(p.words[..k]) && Dictionary(p.words[..k + 1])
    ensures Decode(FullCode(p), |Code(p.words[..k])|, p.words[..k], Flatten(p.words[..k]), Assessed(p)) ==
            Decode(FullCode(p), |Code(p.words[..k + 1])|, p.words[..k + 1], Flatten(p.words[..k + 1]), Assessed(p))
  {
    hide CeilLog2, Decode, Code, Dictionary, Flatten, ToBits, Index;
    var words, code := p.words, FullCode(p);
    var before, after := words[..k], words[..k + 1];
    CodePrefix(words, k + 1);
    assert after[..k] == before && after == before + [words[k]];
    CodeOfLast(after);
    var w := words[k];
    var at, width := |Code(before)|, CeilLog2(k + 1);
    var parent, bit := Index(before, w[..|w| - 1]), w[|w| - 1];
    EntrySlices(code, Code(before), ToBits(parent, width), bit);
    assert w == w[..|w| - 1] + [bit];
    FlattenAppend(before, w);
    FlattenPrefix(words, k + 1);
    DecodeStep(code, at, before, Flatten(before), Assessed(p), parent, bit);
  }

  // The repeated final phrase, if any, is the last thing decoded.
  lemma DecodeTail(p: Parse)
    requires Dictionary(p.words) && Known(p.words, p.tail)
    ensures Decode(FullCode(p), |Code(p.words)|, p.words, Flatten(p.words), Assessed(p)) ==
            Some(Flatten(p.words) + p.tail)
  {
    hide CeilLog2, Code, Dictionary, Flatten, ToBits, FromBits, Index;
    if p.tail == [] {
      assert Flatten(p.words) + [] == Flatten(p.words);
    } else {
      TailCode(p);
      hide FullCode, Known, Decode;
      LastPhrase(FullCode(p), |Code(p.words)|, p.words, Flatten(p.words), Index(p.words, p.tail));
    }
  }

  // The code of an unfinished last phrase is the index of that phrase.
  lemma TailCode(p: Parse)
    requires Dictionary(p.words) && Known(p.words, p.tail) && p.tail != []
    ensures var at, width, index := |Code(p.words)|, CeilLog2(|p.words| + 1), Index(p.words, p.tail);
            && index <= |p.words| && Phrase(p.words, index) == p.tail
            && at + width <= |FullCode(p)| && FromBits(FullCode(p)[at..at + width]) == index
  {
    hide CeilLog2, Code, Dictionary, ToBits, FromBits, Decode;
    var index := Index(p.words, p.tail);
    IndexBits(index, |p.words| + 1);
    SliceTail(Code(p.words), ToBits(index, CeilLog2(|p.words| + 1)));
  }

  lemma SliceTail(front: seq<bool>, back: seq<bool>)
    ensures (front + back)[|front|..|front| + |back|] == back
  {
  }

  // The index of a last phrase that reaches the end of the stream.
  lemma LastPhrase(code: seq<bool>, at: nat, words: seq<Word>, done: Word, index: nat)
    requires index <= |words| && Phrase(words, index) != []
    requires var width := CeilLog2(|words| + 1);
             at + width <= |code| && FromBits(code[at..at + width]) == index
    ensures Decode(code, at, words, done, |done| + |Phrase(words, index)|) == Some(done + Phrase(words, index))
  {
    hide CeilLog2, FromBits, Phrase;
  }

  // Decoding from entry k on recovers the rest of the assessed bits.
  lemma {:induction false} DecodeRecovers(p: Parse, k: nat)
    requires Dictionary(p.words) && Known(p.words, p.tail) && k <= |p.words|
    ensures Dictionary(p.words[..k])
    ensures Decode(FullCode(p), |Code(p.words[..k])|, p.words[..k], Flatten(p.words[..k]), Assessed(p)) ==
            Some(Flatten(p.words) + p.tail)
    decreases |p.words| - k
  {
    hide CeilLog2, Decode, Code, Dictionary, Flatten, FullCode;
    DictionaryPrefix(p.words, k);
    if k == |p.words| {
      assert p.words[..k] == p.words;
      DecodeTail(p);
    } else {
      DecodeEntry(p, k);
      DecodeRecovers(p, k + 1);
    }
  }

  // The description length is the length of a code from which the assessed
  // bits can be recovered.
  lemma CodeIsDecodable(bits: Word, limit: nat)
    ensures var p := ParseAll(bits, limit);
            Dictionary(p.words) && Known(p.words, p.tail) &&
            |FullCode(p)| == CodeBits(p) && Assessed(p) <= |bits| &&
            Decode(FullCode(p), 0, [], [], Assessed(p)) == Some(bits[..Assessed(p)])
  {
    hide Decode, ParseRest;
    ParseSound(bits, [], limit);
    var p := ParseAll(bits, limit);
    assert Flatten([]) + bits == bits;
    CodeLength(p.words);
    DecodeRecovers(p, 0);
    assert p.words[..0] == [];
    assert bits[..Assessed(p)] == Flatten(p.words) + p.tail;
  }

  // ----- how many entries a stream can afford -----

  // Words as numbers: a leading one, then the bits.
  function Number(w: Word): nat {
    FromBits(w) + Pow2(|w|)
  }

  lemma NumberRange(w: Word)
    ensures Pow2(|w|) <= Number(w) < Pow2(|w| + 1)
  {
    ToFromBits(w);
  }

  lemma NumberInjective(v: Word, w: Word)
    requires Number(v) == Number(w)
    ensures v == w
  {
    NumberRange(v);
    NumberRange(w);
    if |v| < |w| {
      Pow2Monotone(|v| + 1, |w|);
    } else if |w| < |v| {
      Pow2Monotone(|w| + 1, |v|);
    }
    ToFromBits(v);
    ToFromBits(w);
  }

  ghost predicate Distinct(words: seq<Word>) {
    forall i, j :: 0 <= i < j < |words| ==> words[i] != words[j]
  }

  ghost predicate Nonempty(words: seq<Word>) {
    forall i :: 0 <= i < |words| ==> words[i] != []
  }

  function TotalLength(words: seq<Word>): nat {
    if words == [] then 0 else TotalLength(words[..|words| - 1]) + |words[|words| - 1]|
  }

  // The total length of the e shortest distinct nonempty strings.
  function MinTotal(e: nat): nat {
    if e == 0 then 0 else MinTotal(e - 1) + FloorLog2(e + 1)
  }

  function Numbers(words: seq<Word>): set<nat> {
    set i: nat | i < |words| :: Number(words[i])
  }

  lemma {:induction false} NumbersSize(words: seq<Word>)
    requires Distinct(words)
    ensures |Numbers(words)| == |words|
  {
    if words != [] {
      var m := |words| - 1;
      NumbersSize(words[..m]);
      forall i: nat | i < m
        ensures Number(words[i]) != Number(words[m])
      {
        if Number(words[i]) == Number(words[m]) {
          NumberInjective(words[i], words[m]);
        }
      }
      assert Numbers(words) == Numbers(words[..m]) + {Number(words[m])};
    }
  }

  lemma {:induction false} IntervalSize(lo: nat, hi: nat, s: set<nat>)
    requires forall x :: x in s ==> lo <= x < hi
    ensures |s| <= if lo <= hi then hi - lo else 0
    decreases hi
  {
    if lo < hi {
      IntervalSize(lo, hi - 1, s - {hi - 1});
    } else {
      assert s == {};
    }
  }

  // Among e distinct nonempty strings one is at least floor(log2(e + 1)) long.
  lemma LongOne(words: seq<Word>) returns (i: nat)
    requires Distinct(words) && Nonempty(words) && words != []
    ensures i < |words| && |words[i]| >= FloorLog2(|words| + 1)
  {
    hide Number;
    var bound := FloorLog2(|words| + 1);
    if forall k :: 0 <= k < |words| ==> |words[k]| < bound {
      forall x | x in Numbers(words)
        ensures 2 <= x < |words| + 1
      {
        var k: nat :| k < |words| && Number(words[k]) == x;
        NumberRange(words[k]);
        Pow2Monotone(1, |words[k]|);
        Pow2Monotone(|words[k]| + 1, bound);
      }
      IntervalSize(2, |words| + 1, Numbers(words));
      NumbersSize(words);
      assert false;
    }
    i :| 0 <= i < |words| && |words[i]| >= bound;
  }

  lemma {:induction false} TotalWithout(words: seq<Word>, i: nat)
    requires i < |words|
    ensures TotalLength(words) == TotalLength(words[..i] + words[i + 1..]) + |words[i]|
  {
    var m := |words| - 1;
    var rest := words[..i] + words[i + 1..];
    if i < m {
      TotalWithout(words[..m], i);
      assert rest[..|rest| - 1] == words[..m][..i] + words[..m][i + 1..];
      assert rest[|rest| - 1] == words[m];
    } else {
      assert rest == words[..m];
    }
  }

  // Distinct phrases cannot be short: e of them take at least as many bits as
  // the e shortest strings there are.
  lemma {:induction false} CountingBound(words: seq<Word>)
    requires Distinct(words) && Nonempty(words)
    ensures MinTotal(|words|) <= TotalLength(words)
    decreases |words|
  {
    hide FloorLog2;
    if words != [] {
      var i := LongOne(words);
      var rest := words[..i] + words[i + 1..];
      assert Distinct(rest) && Nonempty(rest);
      TotalWithout(words, i);
      CountingBound(rest);
    }
  }

  lemma FloorLog2Step(e: nat)
    requires e > 0
    ensures var j, k := FloorLog2(e), FloorLog2(e + 1);
            k == j || (k == j + 1 && e + 1 == Pow2(k))
  {
    hide FloorLog2;
    var j, k := FloorLog2(e), FloorLog2(e + 1);
    FloorLog2Monotone(e, e + 1);
    if j != k {
      Pow2Monotone(j + 1, k);
      if j + 1 < k {
        Pow2Monotone(j + 2, k);
      }
    }
  }

  lemma {:induction false} MinTotalClosed(e: nat)
    ensures var k := FloorLog2(e + 1);
            MinTotal(e) + Pow2(k + 1) == (e + 2) * k + 2
  {
    if e == 0 {
      assert FloorLog2(1) == 0 && Pow2(1) == 2;
    } else {
      hide FloorLog2, Pow2;
      MinTotalClosed(e - 1);
      FloorLog2Step(e);
      MinTotalStep(e, FloorLog2(e), FloorLog2(e + 1), MinTotal(e - 1));
    }
  }

  lemma MinTotalStep(e: nat, j: nat, k: nat, before: nat)
    requires before + Pow2(j + 1) == (e + 1) * j + 2
    requires k == j || (k == j + 1 && e + 1 == Pow2(k))
    ensures before + k + Pow2(k + 1) == (e + 2) * k + 2
  {
    assert (e + 2) * k == (e + 1) * k + k;
    if k == j + 1 {
      assert (e + 1) * k == (e + 1) * j + e + 1;
    }
  }

  lemma DictionaryDistinct(words: seq<Word>)
    requires Dictionary(words)
    ensures Distinct(words) && Nonempty(words)
  {
    forall i, j | 0 <= i < j < |words|
      ensures words[i] != words[j]
    {
      assert FreshEntry(words[..j], words[j]);
      assert words[..j][i] == words[i];
    }
    forall i | 0 <= i < |words|
      ensures words[i] != []
    {
      assert FreshEntry(words[..i], words[i]);
    }
  }

  lemma {:induction false} TotalIsFlat(words: seq<Word>)
    ensures TotalLength(words) == |Flatten(words)|
    ensures Nonempty(words) ==> |words| <= TotalLength(words)
  {
    if words != [] {
      TotalIsFlat(words[..|words| - 1]);
    }
  }

  const DEFAULT_LIMIT: nat := 65536

  function DefaultLimit(n: nat): nat {
    if n == 0 then 1 else Min(n, DEFAULT_LIMIT)
  }

  // ----- flipping every bit -----

  function FlipAll(words: seq<Word>): (f: seq<Word>)
    ensures |f| == |words|
  {
    seq(|words|, i requires 0 <= i < |words| => Flip(words[i]))
  }

  lemma FlipKnown(words: seq<Word>, w: Word)
    ensures Known(FlipAll(words), Flip(w)) <==> Known(words, w)
  {
    if w in words {
      var i :| 0 <= i < |words| && words[i] == w;
      assert FlipAll(words)[i] == Flip(w);
    }
    if Flip(w) in FlipAll(words) {
      var i :| 0 <= i < |words| && FlipAll(words)[i] == Flip(w);
      FlipTwice(words[i]);
      FlipTwice(w);
    }
  }

  lemma {:induction false} FlipLongest(words: seq<Word>, rest: Word, k: nat)
    requires k <= |rest|
    ensures Longest(FlipAll(words), Flip(rest), k) == Longest(words, rest, k)
    decreases |rest| - k
  {
    hide Known, FlipAll;
    if k < |rest| {
      FlipKnown(words, rest[..k + 1]);
      assert Flip(rest)[..k + 1] == Flip(rest[..k + 1]);
      FlipLongest(words, rest, k + 1);
    }
  }

  // The parse of the complement is the complement of the parse.
  lemma {:induction false} FlipParse(rest: Word, words: seq<Word>, limit: nat)
    ensures var p := ParseRest(rest, words, limit);
            ParseRest(Flip(rest), FlipAll(words), limit) == Parse(FlipAll(p.words), Flip(p.tail), p.limited)
    decreases |rest|
  {
    hide Longest;
    if rest != [] {
      var k := Longest(words, rest, 0);
      FlipLongest(words, rest, 0);
      if k < |rest| && |words| < limit {
        var w := rest[..k + 1];
        FlipParse(rest[k + 1..], words + [w], limit);
        assert Flip(rest)[k + 1..] == Flip(rest[k + 1..]);
        assert Flip(rest)[..k + 1] == Flip(w);
        assert FlipAll(words + [w]) == FlipAll(words) + [Flip(w)];
      }
    }
  }

  lemma {:induction false} FlipFlatten(words: seq<Word>)
    ensures |Flatten(FlipAll(words))| == |Flatten(words)|
  {
    if words != [] {
      var m := |words| - 1;
      FlipFlatten(words[..m]);
      assert FlipAll(words)[..m] == FlipAll(words[..m]);
    }
  }
}
