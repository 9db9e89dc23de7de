/** Source-order gluing of symbol observations. */
module Composite {
  import opened Bits
  import opened Bitstream

  datatype Kind = FindingKind | SymbolKind | ObservationKind

  datatype Event = Event(kind: Kind, offset: nat, length: nat, value: byte, width: byte)

  predicate WellFormed(e: Event) {
    && e.kind == SymbolKind && 1 <= e.width <= 8 && e.value < Pow2(e.width)
    && e.length > 0 && e.length <= SIZE_MAX && e.offset <= SIZE_MAX - e.length
  }

  predicate AllWellFormed(events: seq<Event>) {
    forall i :: 0 <= i < |events| ==> WellFormed(events[i])
  }

  predicate Apart(a: Event, b: Event) {
    a.offset + a.length <= b.offset || b.offset + b.length <= a.offset
  }

  predicate Disjoint(events: seq<Event>) {
    forall i, j :: 0 <= i < j < |events| ==> Apart(events[i], events[j])
  }

  // The comparator's order.
  predicate NotAfter(a: Event, b: Event) {
    a.offset < b.offset || (a.offset == b.offset && a.length <= b.length)
  }

  predicate Sorted(events: seq<Event>) {
    forall i, j :: 0 <= i < j < |events| ==> NotAfter(events[i], events[j])
  }

  // Each span starts at or after the end of the one before it.
  predicate Chained(events: seq<Event>) {
    forall i :: 0 < i < |events| ==> events[i - 1].offset + events[i - 1].length <= events[i].offset
  }

  function Concat(events: seq<Event>): seq<bool> {
    if events == [] then []
    else Concat(events[..|events| - 1]) + ToBits(events[|events| - 1].value, events[|events| - 1].width)
  }

  // ----- one sorted order, whatever the sort -----

  function Insert(e: Event, s: seq<Event>): (t: seq<Event>)
    ensures multiset(t) == multiset(s) + multiset{e}
  {
    if s == [] || NotAfter(s[|s| - 1], e) then s + [e]
    else
      assert s == s[..|s| - 1] + [s[|s| - 1]];
      Insert(e, s[..|s| - 1]) + [s[|s| - 1]]
  }

  lemma {:induction false} InsertSorted(e: Event, s: seq<Event>)
    requires Sorted(s)
    ensures Sorted(Insert(e, s))
  {
    if s != [] && !NotAfter(s[|s| - 1], e) {
      var last := s[|s| - 1];
      InsertSorted(e, s[..|s| - 1]);
      var t := Insert(e, s[..|s| - 1]);
      forall i | 0 <= i < |t|
        ensures NotAfter(t[i], last)
      {
        assert t[i] in multiset(t);
        assert t[i] == e || t[i] in s[..|s| - 1];
      }
    }
  }

  lemma {:induction false} Twice(s: seq<Event>, e: Event) returns (i: nat, j: nat)
    requires multiset(s)[e] >= 2
    ensures i < j < |s| && s[i] == e == s[j]
  {
    var m := |s| - 1;
    assert s == s[..m] + [s[m]];
    if s[m] == e {
      assert e in s[..m];
      i :| 0 <= i < m && s[..m][i] == e;
      j := m;
    } else {
      i, j := Twice(s[..m], e);
    }
  }

  // Pairwise disjointness is a fact about the set of events.
  lemma DisjointPermuted(a: seq<Event>, b: seq<Event>)
    requires multiset(a) == multiset(b) && Disjoint(a)
    ensures Disjoint(b)
  {
    forall i, j | 0 <= i < j < |b|
      ensures Apart(b[i], b[j])
    {
      assert b[i] in multiset(a) && b[j] in multiset(a);
      if b[i] == b[j] {
        TwoCopies(b, i, j);
        var p, q := Twice(a, b[i]);
      } else {
        var p :| 0 <= p < |a| && a[p] == b[i];
        var q :| 0 <= q < |a| && a[q] == b[j];
      }
    }
  }

  lemma TwoCopies(s: seq<Event>, i: nat, j: nat)
    requires i < j < |s| && s[i] == s[j]
    ensures multiset(s)[s[i]] >= 2
  {
    assert s == s[..j] + [s[j]] + s[j + 1..];
    assert s[..j][i] == s[i];
  }

  lemma WellFormedPermuted(a: seq<Event>, b: seq<Event>)
    requires multiset(a) == multiset(b) && AllWellFormed(a)
    ensures AllWellFormed(b) && |a| == |b|
  {
    assert |multiset(a)| == |a| && |multiset(b)| == |b|;
    forall i | 0 <= i < |b|
      ensures WellFormed(b[i])
    {
      assert b[i] in multiset(a);
    }
  }

  // In sorted order it is enough to compare neighbours.
  lemma ChainedIffDisjoint(s: seq<Event>)
    requires Sorted(s) && AllWellFormed(s)
    ensures Chained(s) <==> Disjoint(s)
  {
    if Chained(s) {
      forall i, j | 0 <= i < j < |s|
        ensures Apart(s[i], s[j])
      {
        ChainReaches(s, i, j);
      }
    }
    if Disjoint(s) {
      forall i | 0 < i < |s|
        ensures s[i - 1].offset + s[i - 1].length <= s[i].offset
      {
        assert Apart(s[i - 1], s[i]) && NotAfter(s[i - 1], s[i]);
        assert WellFormed(s[i]) && WellFormed(s[i - 1]);
      }
    }
  }

  lemma {:induction false} ChainReaches(s: seq<Event>, i: nat, j: nat)
    requires Chained(s) && i < j < |s|
    ensures s[i].offset + s[i].length <= s[j].offset
    decreases j
  {
    if i < j - 1 {
      ChainReaches(s, i, j - 1);
      assert s[j - 1].offset + s[j - 1].length <= s[j].offset;
    }
  }

  lemma SameLast(a: seq<Event>, b: seq<Event>)
    requires multiset(a) == multiset(b) && |a| == |b| > 0 && AllWellFormed(b)
    requires Chained(a) && Chained(b)
    ensures a[|a| - 1] == b[|b| - 1]
  {
    var m := |a| - 1;
    LastIsGreatest(a, b);
    LastIsGreatest(b, a);
    assert a[m] in multiset(b);
    var j :| 0 <= j < |b| && b[j] == a[m];
    assert WellFormed(b[j]);
    if j < m {
      ChainReaches(b, j, m);
    }
  }

  lemma DropLast(s: seq<Event>)
    requires s != []
    ensures Chained(s) ==> Chained(s[..|s| - 1])
    ensures AllWellFormed(s) ==> AllWellFormed(s[..|s| - 1])
    ensures multiset(s) - multiset{s[|s| - 1]} == multiset(s[..|s| - 1])
  {
    assert s == s[..|s| - 1] + [s[|s| - 1]];
  }

  // Disjoint events have one order by offset, so an unstable sort cannot show.
  lemma {:induction false} OrderUnique(a: seq<Event>, b: seq<Event>)
    requires multiset(a) == multiset(b) && AllWellFormed(a)
    requires Chained(a) && Chained(b)
    ensures a == b
  {
    hide Chained, AllWellFormed;
    WellFormedPermuted(a, b);
    if a != [] {
      var m := |a| - 1;
      SameLast(a, b);
      DropLast(a);
      DropLast(b);
      OrderUnique(a[..m], b[..m]);
      LastJoined(a);
      LastJoined(b);
    }
  }

  lemma LastJoined(s: seq<Event>)
    requires s != []
    ensures s == s[..|s| - 1] + [s[|s| - 1]]
  {
  }

  lemma LastIsGreatest(a: seq<Event>, b: seq<Event>)
    requires multiset(a) == multiset(b) && |a| == |b| > 0 && Chained(b)
    ensures a[|a| - 1].offset <= b[|b| - 1].offset
  {
    var m := |a| - 1;
    assert a[m] in multiset(b);
    var j :| 0 <= j < |b| && b[j] == a[m];
    if j < m {
      ChainReaches(b, j, m);
    }
  }

  // ----- gluing -----

  // Whether the events can be glued, and the result in some sorted order.
  ghost predicate Gluable(events: seq<Event>) {
    events != [] && AllWellFormed(events) && Disjoint(events)
  }

  ghost predicate GluesTo(events: seq<Event>, bits: seq<bool>) {
    exists ordered: seq<Event> :: Ordering(events, ordered) && bits == Concat(ordered)
  }

  ghost predicate Ordering(events: seq<Event>, ordered: seq<Event>) {
    multiset(ordered) == multiset(events) && Chained(ordered)
  }

  // The result is a function of the set of events, not of their array order.
  lemma GlueIgnoresOrder(a: seq<Event>, b: seq<Event>, x: seq<bool>, y: seq<bool>)
    requires multiset(a) == multiset(b) && Gluable(a) && GluesTo(a, x) && GluesTo(b, y)
    ensures Gluable(b) && x == y
  {
    DisjointPermuted(a, b);
    WellFormedPermuted(a, b);
    var p :| Ordering(a, p) && x == Concat(p);
    var q :| Ordering(b, q) && y == Concat(q);
    WellFormedPermuted(a, p);
    OrderUnique(p, q);
  }

  // Events already in source order glue to their plain concatenation.
  lemma GlueInOrder(events: seq<Event>)
    requires events != [] && AllWellFormed(events) && Chained(events)
    ensures Gluable(events) && GluesTo(events, Concat(events))
  {
    forall i, j | 0 <= i < j < |events|
      ensures Apart(events[i], events[j])
    {
      ChainReaches(events, i, j);
    }
    assert Ordering(events, events);
  }

  // Whatever the sort, such events glue to nothing else, and to at least a bit.
  lemma GlueChained(events: seq<Event>, bits: seq<bool>)
    requires events != [] && AllWellFormed(events) && Chained(events)
    ensures Gluable(events) && Concat(events) != []
    ensures GluesTo(events, bits) <==> bits == Concat(events)
  {
    hide Gluable, GluesTo, Chained;
    GlueInOrder(events);
    if GluesTo(events, bits) {
      GlueIgnoresOrder(events, events, bits, Concat(events));
    }
    assert WellFormed(events[|events| - 1]);
  }

  lemma ChainOne(events: seq<Event>, e: Event)
    requires Chained(events) && AllWellFormed(events) && WellFormed(e)
    requires events != [] ==> events[|events| - 1].offset + events[|events| - 1].length <= e.offset
    ensures Chained(events + [e]) && AllWellFormed(events + [e])
  {
    hide WellFormed;
  }

  // Stands for qsort: some permutation sorted by the comparator.
  method SortEvents(events: seq<Event>) returns (ordered: seq<Event>)
    ensures multiset(ordered) == multiset(events) && Sorted(ordered)
  {
    ordered := [];
    var i := 0;
    while i < |events|
      invariant 0 <= i <= |events|
      invariant multiset(ordered) == multiset(events[..i]) && Sorted(ordered)
    {
      InsertSorted(events[i], ordered);
      assert events[..i + 1] == events[..i] + [events[i]];
      ordered := Insert(events[i], ordered);
      i := i + 1;
    }
    assert events[..i] == events;
  }

  lemma {:induction false} ConcatLength(events: seq<Event>)
    requires AllWellFormed(events)
    ensures |Concat(events)| <= 8 * |events|
  {
    if events != [] {
      ConcatLength(events[..|events| - 1]);
      assert WellFormed(events[|events| - 1]);
    }
  }

  lemma ConcatOne(events: seq<Event>, e: Event)
    ensures Concat(events + [e]) == Concat(events) + ToBits(e.value, e.width)
  {
    assert (events + [e])[..|events|] == events;
  }

  lemma ConcatStep(events: seq<Event>, n: nat)
    requires n < |events|
    ensures Concat(events[..n + 1]) == Concat(events[..n]) + ToBits(events[n].value, events[n].width)
  {
    assert events[..n + 1][..n] == events[..n];
  }

  method AppendEvent(event: Event, output: Bitstream) returns (status: Status)
    requires WellFormed(event) && output.Valid() && output.bitLength <= SIZE_MAX - 8
    modifies output, output.bytes, output.bytes.data
    ensures output.Valid() && (output.bytes.data == old(output.bytes.data) || fresh(output.bytes.data))
    ensures status == Ok && output.Bits() == old(output.Bits()) + ToBits(event.value, event.width)
  {
    hide ToBits, Pow2;
    status := output.AppendBits(event.value, event.width, false);
  }

  method AppendInOrder(ordered: seq<Event>, output: Bitstream) returns (status: Status)
    requires AllWellFormed(ordered) && |ordered| <= SIZE_MAX / 8
    requires output.Valid() && output.Bits() == []
    modifies output, output.bytes, output.bytes.data
    ensures output.Valid()
    ensures status == (if Chained(ordered) then Ok else Einval)
    ensures status == Ok ==> output.Bits() == Concat(ordered)
  {
    hide ToBits, Concat, WellFormed;
    status := Ok;
    var i, previousEnd := 0, 0;
    assert Concat(ordered[..0]) == [] by {
      ConcatNothing(ordered[..0]);
    }
    while i < |ordered|
      invariant 0 <= i <= |ordered| && status == Ok && output.Valid()
      invariant output.bytes.data == old(output.bytes.data) || fresh(output.bytes.data)
      invariant i > 0 ==> previousEnd == ordered[i - 1].offset + ordered[i - 1].length
      invariant forall k :: 0 < k < i ==> ordered[k - 1].offset + ordered[k - 1].length <= ordered[k].offset
      invariant output.Bits() == Concat(ordered[..i])
    {
      var event := ordered[i];
      if i != 0 && event.offset < previousEnd {
        return Einval;
      }
      previousEnd := event.offset + event.length;
      ConcatLength(ordered[..i]);
      ConcatStep(ordered, i);
      status := AppendEvent(event, output);
      i := i + 1;
    }
    assert ordered[..i] == ordered;
  }

  lemma ConcatNothing(events: seq<Event>)
    requires events == []
    ensures Concat(events) == []
  {
  }

  method GlueSourceOrder(events: seq<Event>, output: Bitstream) returns (status: Status)
    requires output.Readable()
    modifies output, output.bytes, output.bytes.data
    ensures output.Valid()
    ensures status == if events == [] then Enotfound
                      else if |events| > SIZE_MAX / 8 then Enomem
                      else if Gluable(events) then Ok else Einval
    ensures status == Ok ==> GluesTo(events, output.Bits())
    ensures status != Ok ==> output.Bits() == []
  {
    output.Clear();
    if events == [] {
      return Enotfound;
    }
    if |events| > SIZE_MAX / 8 {
      return Enomem;
    }
    status := Ok;
    var i := 0;
    while i < |events|
      invariant 0 <= i <= |events|
      invariant forall k :: 0 <= k < i ==> WellFormed(events[k])
    {
      if !WellFormed(events[i]) {
        return Einval;
      }
      i := i + 1;
    }
    var ordered := SortEvents(events);
    WellFormedPermuted(events, ordered);
    ChainedIffDisjoint(ordered);
    status := AppendInOrder(ordered, output);
    if status != Ok {
      output.Clear();
      SameDisjointness(events, ordered);
    } else {
      SameDisjointness(events, ordered);
      assert Ordering(events, ordered);
    }
  }

  lemma SameDisjointness(a: seq<Event>, b: seq<Event>)
    requires multiset(a) == multiset(b)
    ensures Disjoint(a) <==> Disjoint(b)
  {
    if Disjoint(a) {
      DisjointPermuted(a, b);
    }
    if Disjoint(b) {
      DisjointPermuted(b, a);
    }
  }
}
