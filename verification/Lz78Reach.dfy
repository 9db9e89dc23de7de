/** The shortest stream that fills an LZ78 dictionary of a given size. */
module Lz78Reach {
  import opened Bits
  import opened Scorer
  import opened Log2
  import opened Lz78

  // ----- a full dictionary needs one more phrase to show -----

  // A parse that was cut short had room in the stream for another entry.
  lemma {:induction false} LimitedNeedsMore(rest: Word, words: seq<Word>, limit: nat) returns (w: Word)
    requires Dictionary(words) && |words| <= limit && ParseRest(rest, words, limit).limited
    ensures var p := ParseRest(rest, words, limit);
            && |p.words| == limit && Dictionary(p.words + [w])
            && |Flatten(p.words + [w])| <= |Flatten(words)| + |rest|
    decreases |rest|
  {
    hide Longest, Flatten, Dictionary, FreshEntry;
    var k := Longest(words, rest, 0);
    PhraseStep(rest, words);
    if |words| < limit {
      w := LimitedNeedsMore(rest[k + 1..], words + [rest[..k + 1]], limit);
    } else {
      w := rest[..k + 1];
    }
  }

  // Fewer bits than the limit + 1 shortest words take are assessed whole.
  lemma LimitNotReached(bits: Word, limit: nat)
    requires |bits| < MinTotal(limit + 1)
    ensures var p := ParseAll(bits, limit); !p.limited && Assessed(p) == |bits|
  {
    hide MinTotal, ParseRest;
    ParseSound(bits, [], limit);
    var p := ParseAll(bits, limit);
    assert Flatten([]) == [];
    assert [] + bits == bits;
    if p.limited {
      var w := LimitedNeedsMore(bits, [], limit);
      var all := p.words + [w];
      DictionaryDistinct(all);
      CountingBound(all);
      TotalIsFlat(all);
    }
  }

  // ----- the listing of all words, shortest first -----

  // The word with a given number.
  function WordOf(n: nat): (w: Word)
    requires n > 0
    ensures |w| == FloorLog2(n)
  {
    if n == 1 then [] else WordOf(n / 2) + [n % 2 == 1]
  }

  lemma {:induction false} NumberOfWord(n: nat)
    requires n > 0
    ensures Number(WordOf(n)) == n
  {
    if n > 1 {
      NumberOfWord(n / 2);
      var w := WordOf(n);
      assert w[..|w| - 1] == WordOf(n / 2);
    }
  }

  // The first e nonempty words.
  function Listing(e: nat): (words: seq<Word>)
    ensures |words| == e
  {
    if e == 0 then [] else Listing(e - 1) + [WordOf(e + 1)]
  }

  lemma {:induction false} ListingKnows(e: nat, w: Word)
    ensures Known(Listing(e), w) <==> Number(w) <= e + 1
  {
    hide Number, WordOf;
    NumberRange(w);
    if e == 0 {
      if w != [] {
        Pow2Monotone(1, |w|);
      }
    } else {
      ListingKnows(e - 1, w);
      NumberOfWord(e + 1);
      if Number(w) == e + 1 {
        NumberInjective(w, WordOf(e + 1));
      }
    }
  }

  // A proper prefix has at most half the number.
  lemma {:induction false} PrefixNumber(w: Word, k: nat)
    requires k < |w|
    ensures 2 * Number(w[..k]) <= Number(w)
    decreases |w|
  {
    var m := |w| - 1;
    if k < m {
      PrefixNumber(w[..m], k);
      assert w[..m][..k] == w[..k];
    }
  }

  // The words from number j + 2 to m + 1, end to end.
  function Stream(j: nat, m: nat): Word
    requires j <= m
    decreases m - j
  {
    if j == m then [] else WordOf(j + 2) + Stream(j + 1, m)
  }

  // Read after the listing of j words, the stream starts with the next word.
  lemma NextPhrase(j: nat, m: nat)
    requires j < m
    ensures WordOf(j + 2) != [] && Longest(Listing(j), Stream(j, m), 0) == |WordOf(j + 2)| - 1
  {
    var w, rest := WordOf(j + 2), Stream(j, m);
    NumberOfWord(j + 2);
    assert Number([]) == 1;
    assert w <= rest;
    WalkStops(j, w, rest, 0);
  }

  lemma {:induction false} WalkStops(j: nat, w: Word, rest: Word, k: nat)
    requires w != [] && w <= rest && Number(w) == j + 2 && k < |w|
    ensures Longest(Listing(j), rest, k) == |w| - 1
    decreases |w| - k
  {
    hide Known, Listing, Number;
    ListingKnows(j, rest[..k + 1]);
    if k + 1 < |w| {
      PrefixNumber(w, k + 1);
      assert rest[..k + 1] == w[..k + 1];
      WalkStops(j, w, rest, k + 1);
    } else {
      assert rest[..k + 1] == w;
    }
  }

  // Listing every word in turn fills the dictionary with the fewest bits.
  lemma {:induction false} StreamFills(j: nat, limit: nat)
    requires j <= limit
    ensures ParseRest(Stream(j, limit + 1), Listing(j), limit).limited
    decreases limit - j
  {
    hide Longest, WordOf;
    var m := limit + 1;
    var w, rest := WordOf(j + 2), Stream(j, m);
    NextPhrase(j, m);
    var k := Longest(Listing(j), rest, 0);
    assert rest == w + Stream(j + 1, m);
    if j < limit {
      assert rest[..k + 1] == w && rest[k + 1..] == Stream(j + 1, m);
      StreamFills(j + 1, limit);
    }
  }

  lemma {:induction false} StreamLength(j: nat, m: nat)
    requires j <= m
    ensures |Stream(j, m)| == MinTotal(m) - MinTotal(j)
    decreases m - j
  {
    hide WordOf, FloorLog2;
    if j < m {
      StreamLength(j + 1, m);
    }
  }

  // The limit shows from exactly that many bits on: none shorter reaches it,
  // and this stream does.
  lemma LimitReached(limit: nat)
    ensures |Stream(0, limit + 1)| == MinTotal(limit + 1) && ParseAll(Stream(0, limit + 1), limit).limited
  {
    hide ParseRest, Stream;
    StreamFills(0, limit);
    StreamLength(0, limit + 1);
    assert Listing(0) == [];
    assert MinTotal(0) == 0;
  }

  // ----- the default limit -----

  // The longest streams no default dictionary cuts short.
  const DEFAULT_REACH: nat := 917553

  lemma DefaultReach()
    ensures MinTotal(DEFAULT_LIMIT + 1) == DEFAULT_REACH + 1
  {
    hide MinTotal;
    Pow2Words();
    MinTotalClosed(DEFAULT_LIMIT + 1);
    var k := FloorLog2(DEFAULT_LIMIT + 2);
    assert k == 16 by {
      if k < 16 {
        Pow2Monotone(k + 1, 16);
      } else if k > 16 {
        Pow2Monotone(17, k);
      }
    }
  }

  lemma {:induction false} TotalAtLeast(e: nat)
    ensures MinTotal(e) >= e
  {
    if e > 0 {
      TotalAtLeast(e - 1);
      assert FloorLog2(e + 1) > 0 by {
        assert Pow2(1) == 2;
      }
    }
  }

  // Up to 917553 bits the default dictionary never fills up: the whole stream
  // is assessed.
  lemma DefaultLimitSuffices(bits: Word)
    requires |bits| <= DEFAULT_REACH
    ensures var p := ParseAll(bits, DefaultLimit(|bits|));
            !p.limited && Assessed(p) == |bits|
  {
    hide MinTotal, ParseAll, Assessed;
    DefaultReach();
    var limit := DefaultLimit(|bits|);
    TotalAtLeast(limit + 1);
    LimitNotReached(bits, limit);
  }

  // One bit more, and some stream is cut short.
  lemma DefaultLimitReached() returns (bits: Word)
    ensures |bits| == DEFAULT_REACH + 1 && ParseAll(bits, DefaultLimit(|bits|)).limited
  {
    hide MinTotal, ParseAll, Stream;
    DefaultReach();
    bits := Stream(0, DEFAULT_LIMIT + 1);
    LimitReached(DEFAULT_LIMIT);
  }
}
