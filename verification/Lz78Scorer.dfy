/** The scorer that runs the parse over a trie held in a flat array. */
module Lz78Scorer {
  import opened Bits
  import opened Bitstream
  import opened Scorer
  import opened Lz78

  // calloc(limit + 1, sizeof(lz_node)) must not overflow size_t.
  const MAX_LIMIT: nat := SIZE_MAX / 16 - 1

  function Lz78Result(bits: Word, limit: nat): ScorerResult {
    var p := ParseAll(bits, limit);
    var c := Saturated(CodeBits(p) * ONE_Q16);
    Finish(ScorerResult(ScorerId.Lz78, |bits|, Assessed(p), c.total, 0, Phrases(p), Min(|p.words|, UINT32_MAX),
                        ClampFlag(c) + (if p.limited then {LimitReached} else {})))
  }

  ghost predicate ChildOk(words: seq<Word>, node: nat, bit: bool, child: nat) {
    && child <= |words|
    && (node <= |words| ==>
          var w := Phrase(words, node) + [bit];
          if child == 0 then w !in words else node < child && words[child - 1] == w)
    && (node > |words| ==> child == 0)
  }

  ghost predicate RowOk(words: seq<Word>, node: nat, zero: nat, one: nat) {
    ChildOk(words, node, false, zero) && ChildOk(words, node, true, one)
  }

  // Row n holds the two children of phrase n; zero means there is none.
  ghost predicate Trie(nodes: array2<nat>, words: seq<Word>)
    reads nodes
  {
    && nodes.Length1 == 2 && |words| < nodes.Length0
    && forall node: nat :: node < nodes.Length0 ==>
         RowOk(words, node, nodes[node, 0], nodes[node, 1])
  }

  lemma PhraseInjective(words: seq<Word>, m: nat, n: nat)
    requires Dictionary(words) && m <= |words| && n <= |words|
    requires Phrase(words, m) == Phrase(words, n)
    ensures m == n
  {
    DictionaryDistinct(words);
  }

  // Hanging a new leaf leaves every other child entry right.
  lemma NewChild(words: seq<Word>, at: nat, added: bool, node: nat, bit: bool, child: nat)
    requires Dictionary(words) && at <= |words|
    requires Phrase(words, at) + [added] !in words
    requires ChildOk(words, node, bit, child)
    ensures ChildOk(words + [Phrase(words, at) + [added]], node, bit,
                    if node == at && bit == added then |words| + 1 else child)
  {
    hide Dictionary;
    var w := Phrase(words, at) + [added];
    var next := words + [w];
    if node <= |words| {
      assert Phrase(next, node) == Phrase(words, node);
      var v := Phrase(words, node) + [bit];
      if v == w {
        assert v[..|v| - 1] == Phrase(words, node) && w[..|w| - 1] == Phrase(words, at);
        assert v[|v| - 1] == bit && w[|w| - 1] == added;
        PhraseInjective(words, node, at);
      } else if child == 0 {
        assert v !in next;
      }
    } else if node == |words| + 1 {
      assert Phrase(next, node) == w;
      var v := w + [bit];
      assert v[..|w|] == w;
      if v in words {
        KnownPrefix(words, v, |w|);
      }
    }
  }

  // Makes entry |words| + 1 the child of `node`.
  method AddChild(nodes: array2<nat>, ghost words: seq<Word>, node: nat, bit: bool, entry: nat)
    requires Trie(nodes, words) && Dictionary(words) && node <= |words| && entry == |words| + 1 < nodes.Length0
    requires Phrase(words, node) + [bit] !in words
    modifies nodes
    ensures Trie(nodes, words + [Phrase(words, node) + [bit]])
  {
    hide ChildOk, Dictionary, Phrase;
    nodes[node, if bit then 1 else 0] := entry;
    ghost var next := words + [Phrase(words, node) + [bit]];
    forall n: nat | n < nodes.Length0
      ensures RowOk(next, n, nodes[n, 0], nodes[n, 1])
    {
      assert RowOk(words, n, old(nodes[n, 0]), old(nodes[n, 1]));
      NewChild(words, node, bit, n, false, old(nodes[n, 0]));
      NewChild(words, node, bit, n, true, old(nodes[n, 1]));
    }
  }

  // Follows known bits from `start`; `node` ends at the longest known phrase.
  method Walk(stream: Bitstream, nodes: array2<nat>, start: nat, ghost words: seq<Word>)
    returns (position: nat, node: nat)
    requires stream.Valid() && start < stream.bitLength
    requires Trie(nodes, words) && Dictionary(words)
    ensures start <= position <= stream.bitLength && node <= |words|
    ensures var rest := stream.Bits()[start..];
            position - start == Longest(words, rest, 0) && Phrase(words, node) == rest[..position - start]
    ensures position < stream.bitLength ==> Phrase(words, node) + [stream.Bit(position)] !in words
  {
    hide Dictionary;
    ghost var rest := stream.Bits()[start..];
    position, node := start, 0;
    while position < stream.bitLength
      invariant start <= position <= stream.bitLength && node <= |words|
      invariant Longest(words, rest, position - start) == Longest(words, rest, 0)
      invariant Phrase(words, node) == rest[..position - start]
    {
      var bit := stream.Bit(position);
      ghost var k := position - start;
      assert rest[..k + 1] == rest[..k] + [bit];
      assert RowOk(words, node, nodes[node, 0], nodes[node, 1]);
      var next := nodes[node, if bit then 1 else 0];
      assert ChildOk(words, node, bit, next);
      if next == 0 {
        return;
      }
      node := next;
      position := position + 1;
    }
  }

  // Entries, phrases and cost after the dictionary `words` has been read.
  ghost predicate Progress(bits: Word, limit: nat, words: seq<Word>, position: nat, cost: Cost) {
    && position <= |bits| && |words| <= limit && Dictionary(words)
    && ParseAll(bits, limit) == ParseRest(bits[position..], words, limit)
    && position == |Flatten(words)|
    && cost == Saturated(EntryBits(|words|) * ONE_Q16)
  }

  lemma ProgressFacts(bits: Word, limit: nat, words: seq<Word>, position: nat, cost: Cost)
    requires Progress(bits, limit, words, position, cost)
    ensures position == |Flatten(words)| <= |bits| && |words| <= limit && Dictionary(words)
    ensures cost == Saturated(EntryBits(|words|) * ONE_Q16)
  {
  }

  lemma ProgressStart(bits: Word, limit: nat)
    ensures Progress(bits, limit, [], 0, Cost(0, false))
  {
    assert bits[0..] == bits;
    assert Flatten([]) == [];
  }

  lemma ParseUnfold(rest: Word, words: seq<Word>, limit: nat)
    requires |words| < limit && Longest(words, rest, 0) < |rest|
    ensures var m := Longest(words, rest, 0) + 1;
            ParseRest(rest, words, limit) == ParseRest(rest[m..], words + [rest[..m]], limit)
  {
  }

  lemma EntryCost(k: nat)
    ensures AddCost(Saturated(EntryBits(k) * ONE_Q16), (CeilLog2(k + 1) + 1) * ONE_Q16) ==
            Saturated(EntryBits(k + 1) * ONE_Q16)
  {
    hide CeilLog2, AddCost, Saturated;
    AddSaturated(EntryBits(k) * ONE_Q16, (CeilLog2(k + 1) + 1) * ONE_Q16);
  }

  lemma ProgressStep(bits: Word, limit: nat, words: seq<Word>, position: nat, cost: Cost)
    requires Progress(bits, limit, words, position, cost) && position < |bits| && |words| < limit
    requires Longest(words, bits[position..], 0) < |bits| - position
    ensures var m := Longest(words, bits[position..], 0) + 1;
            Progress(bits, limit, words + [bits[position..][..m]], position + m,
                     AddCost(cost, (CeilLog2(|words| + 1) + 1) * ONE_Q16))
  {
    hide Longest, Flatten, CeilLog2, AddCost, Saturated, Dictionary, FreshEntry, ParseRest, EntryBits;
    var rest := bits[position..];
    var m := Longest(words, rest, 0) + 1;
    PhraseStep(rest, words);
    ParseUnfold(rest, words, limit);
    FlattenAppend(words, rest[..m]);
    assert rest[m..] == bits[position + m..];
    EntryCost(|words|);
  }

  // The end of the stream, reached at a phrase boundary or inside a phrase.
  lemma ProgressDone(bits: Word, limit: nat, words: seq<Word>, position: nat, cost: Cost)
    requires Progress(bits, limit, words, position, cost)
    ensures position == |bits| ==> ParseAll(bits, limit) == Parse(words, [], false)
    ensures position < |bits| && Longest(words, bits[position..], 0) == |bits| - position ==>
      ParseAll(bits, limit) == Parse(words, bits[position..], false)
    ensures position < |bits| && Longest(words, bits[position..], 0) < |bits| - position && |words| == limit ==>
      ParseAll(bits, limit) == Parse(words, [], true)
  {
    hide Longest, Flatten;
  }

  // A phrase ends at the bit the trie cannot follow: a new entry is made.
  method AddEntry(stream: Bitstream, nodes: array2<nat>, node: nat, start: nat, position: nat, entry: nat, cost: Cost,
                  ghost words: seq<Word>, ghost limit: nat)
    returns (cost': Cost, ghost words': seq<Word>)
    requires stream.Valid() && start <= position < stream.bitLength && nodes.Length0 == limit + 1
    requires entry == |words| + 1 <= limit < SIZE_MAX && Trie(nodes, words) && node <= |words|
    requires Progress(stream.Bits(), limit, words, start, cost)
    requires var rest := stream.Bits()[start..];
             position - start == Longest(words, rest, 0) && Phrase(words, node) == rest[..position - start]
    requires Phrase(words, node) + [stream.Bit(position)] !in words
    modifies nodes
    ensures Trie(nodes, words') && |words'| == |words| + 1
    ensures Progress(stream.Bits(), limit, words', position + 1, cost')
  {
    hide Longest, Flatten, CeilLog2, AddCost, Trie, ParseRest, EntryBits, Phrase, Saturated, ParseAll, Progress;
    ghost var rest := stream.Bits()[start..];
    var bit := stream.Bit(position);
    ProgressFacts(stream.Bits(), limit, words, start, cost);
    ProgressStep(stream.Bits(), limit, words, start, cost);
    assert rest[..position - start + 1] == rest[..position - start] + [bit];
    words' := words + [Phrase(words, node) + [bit]];
    AddChild(nodes, words, node, bit, entry);
    var width := ComputeCeilLog2(entry);
    cost' := AddCost(cost, (width + 1) * ONE_Q16);
  }

  method RunParse(stream: Bitstream, limit: nat)
    returns (position: nat, entries: nat, phrases: nat, cost: Cost, limited: bool)
    requires stream.Valid() && stream.bitLength <= SIZE_MAX - 7 && 0 < limit <= MAX_LIMIT
    ensures var p := ParseAll(stream.Bits(), limit);
            position == Assessed(p) && entries == |p.words| && phrases == Phrases(p) && limited == p.limited &&
            cost == Saturated(CodeBits(p) * ONE_Q16)
  {
    hide Dictionary, Longest, Flatten, CeilLog2, AddCost, Trie, ParseRest, EntryBits, Phrase, Saturated, ParseAll,
      Progress, Packed, Unpack;
    ghost var bits := stream.Bits();
    position, entries, phrases, cost, limited := 0, 0, 0, Cost(0, false), false;
    var nodes := new nat[limit + 1, 2]((_, _) => 0);
    ghost var words := [];
    EmptyTrie(nodes);
    ProgressStart(bits, limit);
    while position < stream.bitLength
      invariant stream.Valid() && stream.Bits() == bits && nodes.Length0 == limit + 1
      invariant Trie(nodes, words) && entries == phrases == |words| && !limited
      invariant Progress(bits, limit, words, position, cost)
      decreases stream.bitLength - position
    {
      ProgressFacts(bits, limit, words, position, cost);
      ProgressDone(bits, limit, words, position, cost);
      var start := position;
      var node;
      position, node := Walk(stream, nodes, start, words);
      if position == stream.bitLength {
        phrases := phrases + 1;
        var width := ComputeCeilLog2(entries + 1);
        AddSaturated(EntryBits(entries) * ONE_Q16, width * ONE_Q16);
        cost := AddCost(cost, width * ONE_Q16);
        return;
      }
      if entries == limit {
        limited := true;
        position := start;
        return;
      }
      entries := entries + 1;
      cost, words := AddEntry(stream, nodes, node, start, position, entries, cost, words, limit);
      position := position + 1;
      phrases := phrases + 1;
    }
    ProgressFacts(bits, limit, words, position, cost);
    ProgressDone(bits, limit, words, position, cost);
  }

  method ScorerLz78(stream: Bitstream, dictionaryLimit: nat) returns (result: Option<ScorerResult>)
    requires stream.Readable()
    ensures result.Some? <==> stream.Valid() && stream.bitLength <= SIZE_MAX - 7 && 0 < dictionaryLimit <= MAX_LIMIT
    ensures result.Some? ==> result.value == Lz78Result(stream.Bits(), dictionaryLimit)
  {
    hide Finish, ParseAll, Saturated, CodeBits;
    var ok := stream.CheckValid();
    if !ok || dictionaryLimit == 0 || dictionaryLimit > MAX_LIMIT {
      return None;
    }
    var position, entries, phrases, cost, limited := RunParse(stream, dictionaryLimit);
    return Some(Finish(ScorerResult(ScorerId.Lz78, stream.bitLength, position, cost.total, 0, phrases,
                                    if entries > UINT32_MAX then UINT32_MAX else entries,
                                    ClampFlag(cost) + (if limited then {LimitReached} else {}))));
  }

  lemma EmptyTrie(nodes: array2<nat>)
    requires nodes.Length1 == 2 && nodes.Length0 > 0
    requires forall i, j :: 0 <= i < nodes.Length0 && 0 <= j < 2 ==> nodes[i, j] == 0
    ensures Trie(nodes, [])
  {
  }
}
