/** The bidi-isolate stack machine against bracket matching. */
module Bidi {
  import opened Bits
  import opened Fractions
  import opened UnicodeProperties

  const LRI: nat := 0x2066
  const RLI: nat := 0x2067
  const FSI: nat := 0x2068
  const PDI: nat := 0x2069
  const STACK_LIMIT: nat := 128

  predicate Opener(cp: nat) {
    cp == LRI || cp == RLI || cp == FSI
  }

  predicate Binary(cp: nat) {
    cp == LRI || cp == RLI
  }

  predicate ArabicLetter(cp: nat) {
    || 0x0620 <= cp <= 0x063F || 0x0641 <= cp <= 0x064A || 0x066E <= cp <= 0x066F || 0x0671 <= cp <= 0x06D3
    || 0x06E5 <= cp <= 0x06E6 || 0x06EE <= cp <= 0x06EF || 0x06FA <= cp <= 0x06FC || cp == 0x06FF
  }

  // ----- bracket matching -----

  // Nesting inside the opener at i after the scalars before k, 0 once closed.
  function DepthAfter(s: seq<nat>, i: nat, k: nat): nat
    requires i < k <= |s|
    decreases k
  {
    if k == i + 1 then 1
    else
      var d := DepthAfter(s, i, k - 1);
      if d == 0 then 0
      else if Opener(s[k - 1]) then d + 1
      else if s[k - 1] == PDI then d - 1
      else d
  }

  // The PDI at j closes the opener at i.
  predicate Matches(s: seq<nat>, i: nat, j: nat)
    requires j < |s|
  {
    i < j && Opener(s[i]) && s[j] == PDI && DepthAfter(s, i, j) == 1
  }

  predicate VisibleBetween(s: seq<nat>, i: nat, j: nat)
    requires j <= |s|
  {
    exists k: nat :: i < k < j && !Ignorable(s[k])
  }

  predicate MatchedBefore(s: seq<nat>, i: nat, n: nat)
    requires n <= |s|
  {
    exists j: nat :: i < j < n && Matches(s, i, j)
  }

  predicate EmptyBefore(s: seq<nat>, i: nat, n: nat)
    requires n <= |s|
  {
    exists j: nat :: i < j < n && Matches(s, i, j) && !VisibleBetween(s, i, j)
  }

  predicate AfterArabic(s: seq<nat>, i: nat)
    requires i < |s|
  {
    i > 0 && ArabicLetter(s[i - 1])
  }

  function BinaryOpeners(s: seq<nat>, n: nat): set<nat>
    requires n <= |s|
  {
    set i: nat | i < n && Binary(s[i])
  }

  function MatchedOpeners(s: seq<nat>, n: nat): set<nat>
    requires n <= |s|
  {
    set i: nat | i < n && Binary(s[i]) && MatchedBefore(s, i, n)
  }

  function EmptyOpeners(s: seq<nat>, n: nat): set<nat>
    requires n <= |s|
  {
    set i: nat | i < n && Binary(s[i]) && EmptyBefore(s, i, n)
  }

  function ArabicEmptyOpeners(s: seq<nat>, n: nat): set<nat>
    requires n <= |s|
  {
    set i: nat | i < n && Binary(s[i]) && EmptyBefore(s, i, n) && AfterArabic(s, i)
  }

  // PDIs that close nothing.
  function StrayClosers(s: seq<nat>, n: nat): set<nat>
    requires n <= |s|
  {
    set j: nat | j < n && s[j] == PDI && !exists i: nat :: i < j && Matches(s, i, j)
  }

  // The nesting of the text so far, never below zero.
  function Nesting(s: seq<nat>, n: nat): nat
    requires n <= |s|
  {
    if n == 0 then 0
    else
      var d := Nesting(s, n - 1);
      if Opener(s[n - 1]) then d + 1
      else if s[n - 1] == PDI && d > 0 then d - 1
      else d
  }

  lemma {:induction false} StaysClosed(s: seq<nat>, i: nat, j: nat, n: nat)
    requires i < j < n <= |s| && Matches(s, i, j)
    ensures DepthAfter(s, i, n) == 0
    decreases n
  {
    if n > j + 1 {
      StaysClosed(s, i, j, n - 1);
    }
  }

  lemma {:induction false} ClosedIsMatched(s: seq<nat>, i: nat, n: nat)
    requires i < n <= |s| && Opener(s[i])
    ensures DepthAfter(s, i, n) == 0 <==> MatchedBefore(s, i, n)
    decreases n
  {
    if n > i + 1 {
      ClosedIsMatched(s, i, n - 1);
      if MatchedBefore(s, i, n) {
        var j: nat :| i < j < n && Matches(s, i, j);
        StaysClosed(s, i, j, n);
      }
      if DepthAfter(s, i, n) == 0 && DepthAfter(s, i, n - 1) != 0 {
        assert Matches(s, i, n - 1);
      }
    }
  }

  // An opener has at most one closer.
  lemma OneCloser(s: seq<nat>, i: nat, j: nat, k: nat)
    requires j < |s| && k < |s| && Matches(s, i, j) && Matches(s, i, k)
    ensures j == k
  {
    if j < k {
      StaysClosed(s, i, j, k);
    } else if k < j {
      StaysClosed(s, i, k, j);
    }
  }

  // ----- the stack -----

  datatype Frame = Frame(visible: bool, afterArabic: bool, binary: bool)

  // Where the content of the frame at level t ends: the next frame, or here.
  function Until(open: seq<nat>, t: nat, n: nat): nat
    requires t < |open|
  {
    if t + 1 < |open| then open[t + 1] else n
  }

  ghost predicate FrameTells(s: seq<nat>, n: nat, open: seq<nat>, t: nat, f: Frame)
    requires t < |open| && n <= |s|
  {
    && open[t] < n && Opener(s[open[t]]) && open[t] < Until(open, t, n) <= n
    && f.binary == Binary(s[open[t]])
    && f.afterArabic == AfterArabic(s, open[t])
    && f.visible == VisibleBetween(s, open[t], Until(open, t, n))
    && DepthAfter(s, open[t], n) == |open| - t
  }

  // `open` lists the openers still open after n scalars, outermost first.
  ghost predicate Tracks(s: seq<nat>, n: nat, open: seq<nat>, frames: seq<Frame>) {
    && n <= |s| && |open| == |frames| == Nesting(s, n)
    && (forall t :: 0 <= t < |open| ==> FrameTells(s, n, open, t, frames[t]))
    && (forall i: nat :: i < n && Opener(s[i]) && i !in open ==> DepthAfter(s, i, n) == 0)
  }

  lemma TrackOpener(s: seq<nat>, n: nat, open: seq<nat>, frames: seq<Frame>)
    requires Tracks(s, n, open, frames) && n < |s| && Opener(s[n])
    ensures Tracks(s, n + 1, open + [n], frames + [Frame(false, AfterArabic(s, n), Binary(s[n]))])
  {
    var o, f := open + [n], frames + [Frame(false, AfterArabic(s, n), Binary(s[n]))];
    forall t | 0 <= t < |o|
      ensures FrameTells(s, n + 1, o, t, f[t])
    {
      if t < |open| {
        assert FrameTells(s, n, open, t, frames[t]);
      }
    }
  }

  lemma FrameOther(s: seq<nat>, n: nat, open: seq<nat>, t: nat, f: Frame)
    requires t < |open| && n < |s| && FrameTells(s, n, open, t, f) && !Opener(s[n]) && s[n] != PDI
    ensures FrameTells(s, n + 1, open, t, if t == |open| - 1 && !Ignorable(s[n]) then f.(visible := true) else f)
  {
    hide Ignorable, VisibleBetween;
    if t == |open| - 1 {
      VisibleStep(s, open[t], n);
    }
  }

  lemma TrackOther(s: seq<nat>, n: nat, open: seq<nat>, frames: seq<Frame>)
    requires Tracks(s, n, open, frames) && n < |s| && !Opener(s[n]) && s[n] != PDI
    ensures var f := if open != [] && !Ignorable(s[n])
                     then frames[|frames| - 1 := frames[|frames| - 1].(visible := true)] else frames;
            Tracks(s, n + 1, open, f)
  {
    hide Ignorable, FrameTells;
    var f := if open != [] && !Ignorable(s[n])
             then frames[|frames| - 1 := frames[|frames| - 1].(visible := true)] else frames;
    forall t | 0 <= t < |open|
      ensures FrameTells(s, n + 1, open, t, f[t])
    {
      assert FrameTells(s, n, open, t, frames[t]);
      FrameOther(s, n, open, t, frames[t]);
    }
  }

  lemma VisibleStep(s: seq<nat>, i: nat, n: nat)
    requires i < n < |s|
    ensures VisibleBetween(s, i, n + 1) <==> VisibleBetween(s, i, n) || !Ignorable(s[n])
  {
    hide Ignorable;
    if VisibleBetween(s, i, n) {
      var k: nat :| i < k < n && !Ignorable(s[k]);
      assert i < k < n + 1;
    }
  }

  // A range splits at an ignorable scalar.
  lemma VisibleSplit(s: seq<nat>, i: nat, m: nat, n: nat)
    requires i < m < n <= |s| && Ignorable(s[m])
    ensures VisibleBetween(s, i, n) <==> VisibleBetween(s, i, m) || VisibleBetween(s, m, n)
  {
    hide Ignorable;
    if VisibleBetween(s, i, n) {
      var k: nat :| i < k < n && !Ignorable(s[k]);
      assert k < m || m < k;
    }
    if VisibleBetween(s, i, m) {
      var k: nat :| i < k < m && !Ignorable(s[k]);
      assert i < k < n;
    }
    if VisibleBetween(s, m, n) {
      var k: nat :| m < k < n && !Ignorable(s[k]);
      assert i < k < n;
    }
  }

  function Popped(frames: seq<Frame>): (f: seq<Frame>)
    requires frames != []
    ensures |f| == |frames| - 1
  {
    var m := |frames| - 1;
    if frames[m].visible && m > 0 then frames[..m][m - 1 := frames[m - 1].(visible := true)] else frames[..m]
  }

  // A frame below the top survives the pop, one level shallower.
  lemma FrameCloser(s: seq<nat>, n: nat, open: seq<nat>, t: nat, f: Frame, top: Frame)
    requires t < |open| - 1 && n < |s| && s[n] == PDI
    requires FrameTells(s, n, open, t, f) && FrameTells(s, n, open, |open| - 1, top)
    ensures FrameTells(s, n + 1, open[..|open| - 1], t,
                       if t == |open| - 2 && top.visible then f.(visible := true) else f)
  {
    hide Ignorable, VisibleBetween;
    if t == |open| - 2 {
      IsolatesIgnorable(PDI);
      IsolatesIgnorable(s[open[t + 1]]);
      VisibleSplit(s, open[t], open[t + 1], n);
      VisibleStep(s, open[t], n);
    }
  }

  // Popping closes exactly the innermost opener and hands its content to the
  // frame around it.
  lemma TrackCloser(s: seq<nat>, n: nat, open: seq<nat>, frames: seq<Frame>)
    requires Tracks(s, n, open, frames) && n < |s| && s[n] == PDI && open != []
    ensures Tracks(s, n + 1, open[..|open| - 1], Popped(frames))
  {
    hide Ignorable, FrameTells;
    var m := |open| - 1;
    var o, f := open[..m], Popped(frames);
    assert FrameTells(s, n, open, m, frames[m]);
    forall t | 0 <= t < m
      ensures FrameTells(s, n + 1, o, t, f[t])
    {
      assert FrameTells(s, n, open, t, frames[t]);
      FrameCloser(s, n, open, t, frames[t], frames[m]);
    }
    TopCloses(s, n, open, frames);
  }

  // The opener on top is the one the PDI matches, and the only one.
  lemma TopCloses(s: seq<nat>, n: nat, open: seq<nat>, frames: seq<Frame>)
    requires Tracks(s, n, open, frames) && n < |s| && s[n] == PDI && open != []
    ensures var p := open[|open| - 1];
            && p < n && Matches(s, p, n) && DepthAfter(s, p, n + 1) == 0
            && frames[|frames| - 1].visible == VisibleBetween(s, p, n)
            && frames[|frames| - 1].binary == Binary(s[p])
            && frames[|frames| - 1].afterArabic == AfterArabic(s, p)
            && forall i: nat :: Matches(s, i, n) ==> i == p
  {
    hide Ignorable, VisibleBetween;
    var m := |open| - 1;
    assert FrameTells(s, n, open, m, frames[m]);
    forall i: nat | Matches(s, i, n)
      ensures i == open[m]
    {
      if i in open {
        var t :| 0 <= t < |open| && open[t] == i;
        assert FrameTells(s, n, open, t, frames[t]);
      }
    }
  }

  lemma TrackStray(s: seq<nat>, n: nat, frames: seq<Frame>)
    requires Tracks(s, n, [], frames) && n < |s| && s[n] == PDI
    ensures Tracks(s, n + 1, [], frames)
    ensures forall i: nat :: !Matches(s, i, n)
  {
  }

  lemma TrackStart(s: seq<nat>)
    ensures Tracks(s, 0, [], [])
  {
  }

  // ----- how the counted sets grow -----

  lemma BeforeStep(s: seq<nat>, i: nat, n: nat)
    requires i < n < |s|
    ensures MatchedBefore(s, i, n + 1) <==> MatchedBefore(s, i, n) || Matches(s, i, n)
    ensures EmptyBefore(s, i, n + 1) <==> EmptyBefore(s, i, n) || (Matches(s, i, n) && !VisibleBetween(s, i, n))
  {
    hide DepthAfter, VisibleBetween;
    if MatchedBefore(s, i, n) {
      var j: nat :| i < j < n && Matches(s, i, j);
      assert i < j < n + 1;
    }
    if EmptyBefore(s, i, n) {
      var j: nat :| i < j < n && Matches(s, i, j) && !VisibleBetween(s, i, j);
      assert i < j < n + 1;
    }
  }

  lemma SetsUnclosed(s: seq<nat>, n: nat)
    requires n < |s| && forall i: nat :: !Matches(s, i, n)
    ensures MatchedOpeners(s, n + 1) == MatchedOpeners(s, n)
    ensures EmptyOpeners(s, n + 1) == EmptyOpeners(s, n)
    ensures ArabicEmptyOpeners(s, n + 1) == ArabicEmptyOpeners(s, n)
  {
    hide MatchedBefore, EmptyBefore;
    forall i: nat | i < n
      ensures MatchedBefore(s, i, n + 1) == MatchedBefore(s, i, n) && EmptyBefore(s, i, n + 1) == EmptyBefore(s, i, n)
    {
      BeforeStep(s, i, n);
    }
    NothingAfter(s, n);
  }

  lemma NothingAfter(s: seq<nat>, n: nat)
    requires n < |s|
    ensures !MatchedBefore(s, n, n + 1) && !EmptyBefore(s, n, n + 1)
  {
  }

  lemma SetsClosed(s: seq<nat>, n: nat, p: nat)
    requires p < n < |s| && Matches(s, p, n) && forall i: nat :: Matches(s, i, n) ==> i == p
    ensures p !in MatchedOpeners(s, n) && p !in EmptyOpeners(s, n) && p !in ArabicEmptyOpeners(s, n)
    ensures MatchedOpeners(s, n + 1) == MatchedOpeners(s, n) + (if Binary(s[p]) then {p} else {})
    ensures var empty := Binary(s[p]) && !VisibleBetween(s, p, n);
            && EmptyOpeners(s, n + 1) == EmptyOpeners(s, n) + (if empty then {p} else {})
            && ArabicEmptyOpeners(s, n + 1) ==
               ArabicEmptyOpeners(s, n) + (if empty && AfterArabic(s, p) then {p} else {})
  {
    ClosedIsMatched(s, p, n);
    EmptyIsMatched(s, p, n);
    hide MatchedBefore, EmptyBefore;
    forall i: nat | i < n
      ensures MatchedBefore(s, i, n + 1) == (MatchedBefore(s, i, n) || i == p)
      ensures EmptyBefore(s, i, n + 1) == (EmptyBefore(s, i, n) || (i == p && !VisibleBetween(s, p, n)))
    {
      BeforeStep(s, i, n);
    }
    NothingAfter(s, n);
  }

  lemma EmptyIsMatched(s: seq<nat>, i: nat, n: nat)
    requires n <= |s|
    ensures EmptyBefore(s, i, n) ==> MatchedBefore(s, i, n)
  {
    hide VisibleBetween, DepthAfter;
  }

  lemma StrayStep(s: seq<nat>, n: nat)
    requires n < |s|
    ensures StrayClosers(s, n + 1) ==
            StrayClosers(s, n) + (if s[n] == PDI && forall i: nat :: !Matches(s, i, n) then {n} else {})
    ensures BinaryOpeners(s, n + 1) == BinaryOpeners(s, n) + (if Binary(s[n]) then {n} else {})
  {
    hide DepthAfter;
  }

  function CountOf(s: seq<nat>, n: nat, cp: nat): nat
    requires n <= |s|
  {
    if n == 0 then 0 else CountOf(s, n - 1, cp) + (if s[n - 1] == cp then 1 else 0)
  }

  lemma CountStep(s: seq<nat>, n: nat)
    requires n < |s|
    ensures forall cp :: CountOf(s, n + 1, cp) == CountOf(s, n, cp) + (if s[n] == cp then 1 else 0)
  {
  }

  lemma NoOpeners(s: seq<nat>)
    ensures BinaryOpeners(s, 0) == {}
  {
  }

  lemma OpenersBelow(s: seq<nat>, n: nat)
    requires n <= |s|
    ensures n !in BinaryOpeners(s, n)
  {
  }

  lemma {:induction false} BinaryCount(s: seq<nat>, n: nat)
    requires n <= |s|
    ensures |BinaryOpeners(s, n)| == CountOf(s, n, LRI) + CountOf(s, n, RLI)
  {
    hide BinaryOpeners, StrayClosers, Matches;
    NoOpeners(s);
    if n > 0 {
      BinaryCount(s, n - 1);
      StrayStep(s, n - 1);
      OpenersBelow(s, n - 1);
    }
  }

  // ----- the scanner's state -----

  // Frames and counters describe the first n scalars exactly.
  ghost predicate Exact(s: seq<nat>, n: nat, open: seq<nat>, frames: seq<Frame>, counts: Counts)
    requires n <= |s|
  {
    Tracks(s, n, open, frames) && Tallies(s, n, counts)
  }

  datatype Counts = Counts(matched: nat, empty: nat, emptyAfterArabic: nat, unmatchedPdi: nat)

  predicate NeverTooDeep(s: seq<nat>, n: nat)
    requires n <= |s|
  {
    forall k :: 0 <= k <= n ==> Nesting(s, k) <= STACK_LIMIT
  }

  lemma OpenerClosesNothing(s: seq<nat>, n: nat)
    requires n < |s| && s[n] != PDI
    ensures forall i: nat :: !Matches(s, i, n)
  {
  }

  lemma ExactOpener(s: seq<nat>, n: nat, open: seq<nat>, frames: seq<Frame>, c: Counts)
    requires n < |s| && Exact(s, n, open, frames, c) && Opener(s[n])
    ensures Exact(s, n + 1, open + [n], frames + [Frame(false, AfterArabic(s, n), Binary(s[n]))], c)
  {
    hide Tracks, MatchedOpeners, EmptyOpeners, ArabicEmptyOpeners, StrayClosers;
    TrackOpener(s, n, open, frames);
    OpenerClosesNothing(s, n);
    SetsUnclosed(s, n);
    StrayStep(s, n);
  }

  lemma ExactOther(s: seq<nat>, n: nat, open: seq<nat>, frames: seq<Frame>, c: Counts)
    requires n < |s| && Exact(s, n, open, frames, c) && !Opener(s[n]) && s[n] != PDI
    ensures |open| == |frames|
    ensures Exact(s, n + 1, open,
                  if frames != [] && !Ignorable(s[n])
                  then frames[|frames| - 1 := frames[|frames| - 1].(visible := true)] else frames, c)
  {
    hide MatchedOpeners, EmptyOpeners, ArabicEmptyOpeners, StrayClosers, Ignorable, FrameTells, Nesting;
    TrackOther(s, n, open, frames);
    OpenerClosesNothing(s, n);
    SetsUnclosed(s, n);
    StrayStep(s, n);
  }

  lemma ExactStray(s: seq<nat>, n: nat, open: seq<nat>, c: Counts)
    requires n < |s| && Exact(s, n, open, [], c) && s[n] == PDI
    ensures Exact(s, n + 1, open, [], c.(unmatchedPdi := c.unmatchedPdi + 1))
  {
    assert open == [];
    TrackStray(s, n, []);
    hide Tracks, MatchedOpeners, EmptyOpeners, ArabicEmptyOpeners;
    SetsUnclosed(s, n);
    StrayStep(s, n);
  }

  function Closed(c: Counts, top: Frame): Counts {
    if !top.binary then c
    else
      Counts(c.matched + 1, c.empty + (if top.visible then 0 else 1),
             c.emptyAfterArabic + (if !top.visible && top.afterArabic then 1 else 0), c.unmatchedPdi)
  }

  ghost predicate Tallies(s: seq<nat>, n: nat, c: Counts)
    requires n <= |s|
  {
    && c.matched == |MatchedOpeners(s, n)|
    && c.empty == |EmptyOpeners(s, n)|
    && c.emptyAfterArabic == |ArabicEmptyOpeners(s, n)|
    && c.unmatchedPdi == |StrayClosers(s, n)|
  }

  // The closer's opener is new to the sets it enters.
  lemma ClosedTallies(s: seq<nat>, n: nat, p: nat)
    requires p < n < |s| && Matches(s, p, n) && forall i: nat :: Matches(s, i, n) ==> i == p
    ensures |MatchedOpeners(s, n + 1)| == |MatchedOpeners(s, n)| + (if Binary(s[p]) then 1 else 0)
    ensures var empty := Binary(s[p]) && !VisibleBetween(s, p, n);
            && |EmptyOpeners(s, n + 1)| == |EmptyOpeners(s, n)| + (if empty then 1 else 0)
            && |ArabicEmptyOpeners(s, n + 1)| ==
               |ArabicEmptyOpeners(s, n)| + (if empty && AfterArabic(s, p) then 1 else 0)
  {
    hide MatchedOpeners, EmptyOpeners, ArabicEmptyOpeners, VisibleBetween, AfterArabic, DepthAfter, Matches, Binary;
    SetsClosed(s, n, p);
  }

  lemma TallyCloser(s: seq<nat>, n: nat, p: nat, top: Frame, c: Counts)
    requires p < n < |s| && Tallies(s, n, c) && s[n] == PDI
    requires Matches(s, p, n) && forall i: nat :: Matches(s, i, n) ==> i == p
    requires top == Frame(VisibleBetween(s, p, n), AfterArabic(s, p), Binary(s[p]))
    ensures Tallies(s, n + 1, Closed(c, top))
  {
    hide MatchedOpeners, EmptyOpeners, ArabicEmptyOpeners, StrayClosers, VisibleBetween, AfterArabic, DepthAfter;
    hide Matches, Binary;
    ClosedTallies(s, n, p);
    StrayStep(s, n);
  }

  lemma ExactCloser(s: seq<nat>, n: nat, open: seq<nat>, frames: seq<Frame>, c: Counts)
    requires n < |s| && Exact(s, n, open, frames, c) && s[n] == PDI && frames != []
    ensures |open| == |frames|
    ensures Exact(s, n + 1, open[..|open| - 1], Popped(frames), Closed(c, frames[|frames| - 1]))
  {
    assert |open| == |frames|;
    hide Tracks, Tallies, Popped, VisibleBetween, AfterArabic, DepthAfter, Matches, Closed;
    TrackCloser(s, n, open, frames);
    TopCloses(s, n, open, frames);
    TallyCloser(s, n, open[|open| - 1], frames[|frames| - 1], c);
  }

  // The stack depth is the nesting, so the opener that overflows is the one
  // that passes the limit.
  lemma DeepStep(s: seq<nat>, n: nat)
    requires n < |s|
    ensures NeverTooDeep(s, n + 1) <==> NeverTooDeep(s, n) && Nesting(s, n + 1) <= STACK_LIMIT
    ensures Opener(s[n]) ==> Nesting(s, n + 1) == Nesting(s, n) + 1
    ensures !Opener(s[n]) ==> Nesting(s, n + 1) <= Nesting(s, n)
    ensures NeverTooDeep(s, n) ==> Nesting(s, n) <= STACK_LIMIT
  {
    hide Opener;
    var m := n + 1;
    if NeverTooDeep(s, m) {
      forall k | 0 <= k <= n
        ensures Nesting(s, k) <= STACK_LIMIT
      {
        assert k <= m;
      }
      assert Nesting(s, m) <= STACK_LIMIT;
    }
  }

  // The directional controls the scan counts together.
  predicate BidiControl(cp: nat) {
    0x202A <= cp <= 0x202E || 0x2066 <= cp <= 0x2069 || cp == 0x061C || cp == 0x200E || cp == 0x200F
  }

  function ControlCount(s: seq<nat>, n: nat): nat
    requires n <= |s|
  {
    if n == 0 then 0 else ControlCount(s, n - 1) + (if BidiControl(s[n - 1]) then 1 else 0)
  }

  class IsolateScan {
    var scalars: nat
    var bidi: nat
    var lri: nat
    var rli: nat
    var fsi: nat
    var pdi: nat
    var matchedBinary: nat
    var emptyBinary: nat
    var emptyAfterArabic: nat
    var unmatchedPdi: nat
    var stackOverflow: nat
    var previous: Option<nat>
    const stack: array<Frame>
    var depth: nat
    ghost var open: seq<nat>

    ghost function Tally(): Counts
      reads this
    {
      Counts(matchedBinary, emptyBinary, emptyAfterArabic, unmatchedPdi)
    }

    // The totals after n scalars of s.
    ghost predicate Valid(s: seq<nat>, n: nat)
      reads this, stack
    {
      Isolates(s, n) && scalars == n && bidi == ControlCount(s, n)
    }

    // The isolate totals; exact as long as no opener was dropped.
    ghost predicate Isolates(s: seq<nat>, n: nat)
      reads this, stack
    {
      && n <= |s| && depth <= stack.Length == STACK_LIMIT
      && lri == CountOf(s, n, LRI) && rli == CountOf(s, n, RLI)
      && fsi == CountOf(s, n, FSI) && pdi == CountOf(s, n, PDI)
      && previous == (if n > 0 then Some(s[n - 1]) else None)
      && (stackOverflow == 0 ==> Exact(s, n, open, stack[..depth], Tally()))
      && (stackOverflow == 0 <==> NeverTooDeep(s, n))
    }

    constructor (ghost s: seq<nat>)
      ensures Valid(s, 0) && fresh(stack)
    {
      lri, rli, fsi, pdi, matchedBinary, emptyBinary := 0, 0, 0, 0, 0, 0;
      emptyAfterArabic, unmatchedPdi, stackOverflow, previous, depth := 0, 0, 0, None, 0;
      scalars, bidi := 0, 0;
      stack := new Frame[STACK_LIMIT](_ => Frame(false, false, false));
      open := [];
      TrackStart(s);
    }

    method PushOpener(cp: nat, ghost s: seq<nat>, ghost n: nat)
      requires Isolates(s, n) && n < |s| && cp == s[n] && Opener(cp)
      modifies this, stack
      ensures Isolates(s, n + 1) && scalars == old(scalars) && bidi == old(bidi)
    {
      hide Exact, NeverTooDeep, CountOf;
      CountStep(s, n);
      DeepStep(s, n);
      ghost var before := stack[..depth];
      if stackOverflow == 0 {
        DepthIsNesting(s, n, open, before, Tally());
        ExactOpener(s, n, open, before, Tally());
      }
      if cp == LRI {
        lri := lri + 1;
      } else if cp == RLI {
        rli := rli + 1;
      } else {
        fsi := fsi + 1;
      }
      if depth < STACK_LIMIT {
        stack[depth] := Frame(false, previous.Some? && ArabicLetter(previous.value), Binary(cp));
        assert stack[..depth + 1] == before + [stack[depth]];
        depth := depth + 1;
        open := open + [n];
      } else {
        stackOverflow := stackOverflow + 1;
      }
      previous := Some(cp);
    }

    // A closed frame, if it counts as a bit, is matched and may be empty.
    method TallyFrame(frame: Frame)
      modifies this`matchedBinary, this`emptyBinary, this`emptyAfterArabic
      ensures Tally() == Closed(old(Tally()), frame)
    {
      if frame.binary {
        matchedBinary := matchedBinary + 1;
        if !frame.visible {
          emptyBinary := emptyBinary + 1;
          if frame.afterArabic {
            emptyAfterArabic := emptyAfterArabic + 1;
          }
        }
      }
    }

    // The closed frame is tallied and hands its visibility down.
    method PopFrame()
      requires 0 < depth <= stack.Length
      modifies this`depth, this`matchedBinary, this`emptyBinary, this`emptyAfterArabic, stack
      ensures depth == old(depth) - 1 && stack[..depth] == Popped(old(stack[..depth]))
      ensures Tally() == Closed(old(Tally()), old(stack[depth - 1]))
    {
      hide Closed;
      ghost var before := stack[..depth];
      depth := depth - 1;
      var frame := stack[depth];
      TallyFrame(frame);
      if frame.visible && depth > 0 {
        stack[depth - 1] := stack[depth - 1].(visible := true);
      }
      assert stack[..depth] == Popped(before);
    }

    method PopIsolate(ghost s: seq<nat>, ghost n: nat)
      requires Isolates(s, n) && n < |s| && s[n] == PDI
      modifies this, stack
      ensures Isolates(s, n + 1) && scalars == old(scalars) && bidi == old(bidi)
    {
      hide Exact, NeverTooDeep, Nesting, Closed, CountOf, Popped;
      CountStep(s, n);
      DeepStep(s, n);
      ghost var before, counts := stack[..depth], Tally();
      if stackOverflow == 0 {
        if depth > 0 {
          ExactCloser(s, n, open, before, counts);
          open := open[..|open| - 1];
        } else {
          ExactStray(s, n, open, counts);
        }
      }
      pdi := pdi + 1;
      if depth > 0 {
        PopFrame();
      } else {
        unmatchedPdi := unmatchedPdi + 1;
      }
      previous := Some(PDI);
    }

    method MarkContent(cp: nat, ghost s: seq<nat>, ghost n: nat)
      requires Isolates(s, n) && n < |s| && cp == s[n] && !Opener(cp) && cp != PDI
      modifies this, stack
      ensures Isolates(s, n + 1) && scalars == old(scalars) && bidi == old(bidi)
    {
      hide Exact, NeverTooDeep, Nesting, Ignorable;
      DeepStep(s, n);
      ghost var before := stack[..depth];
      if stackOverflow == 0 {
        ExactOther(s, n, open, before, Tally());
      }
      if depth > 0 {
        var ignorable := IsIgnorable(cp);
        if !ignorable {
          stack[depth - 1] := stack[depth - 1].(visible := true);
          assert stack[..depth] == before[depth - 1 := before[depth - 1].(visible := true)];
        }
      }
      previous := Some(cp);
    }

    method ScanScalar(cp: nat, ghost s: seq<nat>, ghost n: nat)
      requires Valid(s, n) && n < |s| && cp == s[n]
      modifies this, stack
      ensures Valid(s, n + 1)
    {
      scalars := scalars + 1;
      if Opener(cp) {
        PushOpener(cp, s, n);
      } else if cp == PDI {
        PopIsolate(s, n);
      } else {
        MarkContent(cp, s, n);
      }
      if BidiControl(cp) {
        bidi := bidi + 1;
      }
    }

    // The isolate finding: openers recur in both kinds, isolates are mostly
    // empty and dense among the other scalars, and the text is balanced.
    predicate Reports()
      reads this
    {
      var openers := lri + rli;
      var minority := if lri < rli then lri else rli;
      var base := if scalars > bidi then scalars - bidi else 0;
      && openers >= 64 && lri >= 8 && rli >= 8
      && 100 * minority >= 10 * openers && 100 * matchedBinary >= 90 * openers && 100 * emptyBinary >= 50 * openers
      && base > 0 && 100 * openers >= 5 * base
      && stackOverflow == 0 && unmatchedPdi == 0 && depth == 0
    }

    // The same with rounded quotients, the way the program compares them.
    ghost predicate RoundedReports(round: real -> real)
      reads this
    {
      var openers := lri + rli;
      var minority := if lri < rli then lri else rli;
      var base := if scalars > bidi then scalars - bidi else 0;
      && openers >= 64 && lri >= 8 && rli >= 8
      && round(Quotient(minority, openers)) >= round(Quotient(10, 100))
      && round(Quotient(matchedBinary, openers)) >= round(Quotient(90, 100))
      && round(Quotient(emptyBinary, openers)) >= round(Quotient(50, 100))
      && (if base > 0 then round(Quotient(openers, base)) else 0.0) >= round(Quotient(5, 100))
      && stackOverflow == 0 && unmatchedPdi == 0 && depth == 0
    }

    // Below 2^45 scalars rounding decides no comparison.
    lemma RoundingIsHarmless(round: real -> real, s: seq<nat>)
      requires RoundsToNearest(round) && Valid(s, |s|) && |s| < EXACT
      ensures RoundedReports(round) <==> Reports()
    {
      hide Quotient, CountOf, Exact, NeverTooDeep, ControlCount, RoundsToNearest;
      RoundedPositive(round);
      var openers := lri + rli;
      OpenersBounded(s, |s|);
      if openers >= 64 && stackOverflow == 0 {
        BalancedMatchesAll(s, open, stack[..depth], Tally());
        RoundedAtLeast(round, if lri < rli then lri else rli, openers, 10);
        RoundedAtLeast(round, matchedBinary, openers, 90);
        RoundedAtLeast(round, emptyBinary, openers, 50);
        if scalars > bidi {
          RoundedAtLeast(round, openers, scalars - bidi, 5);
        }
      }
    }

    // What a report says about the text: no opener is dropped, left open or
    // closed by a stray PDI, so the nine-tenths test on matched openers never
    // decides anything.
    lemma ReportMeans(s: seq<nat>)
      requires Valid(s, |s|)
      ensures Reports() <==>
              var lris, rlis := CountOf(s, |s|, LRI), CountOf(s, |s|, RLI);
              && lris + rlis >= 64 && lris >= 8 && rlis >= 8
              && 10 * lris >= lris + rlis && 10 * rlis >= lris + rlis
              && 2 * |EmptyOpeners(s, |s|)| >= lris + rlis
              && |s| > ControlCount(s, |s|) && 20 * (lris + rlis) >= |s| - ControlCount(s, |s|)
              && NeverTooDeep(s, |s|) && StrayClosers(s, |s|) == {} && Nesting(s, |s|) == 0
    {
      if stackOverflow == 0 {
        var frames := stack[..depth];
        DepthIsNesting(s, |s|, open, frames, Tally());
        BalancedMatchesAll(s, open, frames, Tally());
        assert |StrayClosers(s, |s|)| == unmatchedPdi;
        assert unmatchedPdi == 0 <==> StrayClosers(s, |s|) == {};
      }
      hide Exact, NeverTooDeep, StrayClosers, EmptyOpeners, Nesting, CountOf, ControlCount;
    }
  }

  lemma RoundedPositive(round: real -> real)
    requires RoundsToNearest(round)
    ensures round(Quotient(5, 100)) > 0.0
  {
    hide RoundsToNearest;
    assert Quotient(5, 100) == 0.05;
    NearestError(round, 0.05);
  }

  lemma {:induction false} OpenersBounded(s: seq<nat>, n: nat)
    requires n <= |s|
    ensures CountOf(s, n, LRI) + CountOf(s, n, RLI) <= n
  {
    if n > 0 {
      OpenersBounded(s, n - 1);
    }
  }

  lemma DepthIsNesting(s: seq<nat>, n: nat, open: seq<nat>, frames: seq<Frame>, c: Counts)
    requires n <= |s| && Exact(s, n, open, frames, c)
    ensures |open| == |frames| == Nesting(s, n)
  {
  }

  // Empty isolates are matched ones, matched ones are openers, and text that
  // ends with nothing open has every opener matched.
  lemma BalancedMatchesAll(s: seq<nat>, open: seq<nat>, frames: seq<Frame>, c: Counts)
    requires Exact(s, |s|, open, frames, c)
    ensures c.emptyAfterArabic <= c.empty <= c.matched <= CountOf(s, |s|, LRI) + CountOf(s, |s|, RLI)
    ensures frames == [] ==> c.matched == CountOf(s, |s|, LRI) + CountOf(s, |s|, RLI)
  {
    var n := |s|;
    BinaryCount(s, n);
    forall i: nat | i < n && Opener(s[i])
      ensures EmptyBefore(s, i, n) ==> MatchedBefore(s, i, n)
      ensures frames == [] ==> MatchedBefore(s, i, n)
    {
      EmptyIsMatched(s, i, n);
      ClosedIsMatched(s, i, n);
    }
    hide MatchedBefore, EmptyBefore, DepthAfter, Tracks;
    Included(ArabicEmptyOpeners(s, n), EmptyOpeners(s, n));
    Included(EmptyOpeners(s, n), MatchedOpeners(s, n));
    Included(MatchedOpeners(s, n), BinaryOpeners(s, n));
    if frames == [] {
      assert MatchedOpeners(s, n) == BinaryOpeners(s, n);
    }
  }

  lemma {:induction false} Included(a: set<nat>, b: set<nat>)
    requires a <= b
    ensures |a| <= |b|
  {
    assert b == a + (b - a);
    assert |b| == |a| + |b - a|;
  }

  // The scan counts exactly what bracket matching says, unless nesting ever
  // passed the limit, which the overflow counter reports.
  method ScanIsolates(s: seq<nat>) returns (x: IsolateScan)
    ensures fresh(x) && fresh(x.stack) && x.Valid(s, |s|)
    ensures x.lri + x.rli == |BinaryOpeners(s, |s|)|
    ensures x.stackOverflow == 0 <==> NeverTooDeep(s, |s|)
    ensures x.stackOverflow == 0 ==>
      && x.matchedBinary == |MatchedOpeners(s, |s|)|
      && x.emptyBinary == |EmptyOpeners(s, |s|)|
      && x.emptyAfterArabic == |ArabicEmptyOpeners(s, |s|)|
      && x.unmatchedPdi == |StrayClosers(s, |s|)|
      && x.depth == Nesting(s, |s|)
    ensures x.stackOverflow == 0 && x.depth == 0 ==> x.matchedBinary == x.lri + x.rli
  {
    x := new IsolateScan(s);
    var i := 0;
    while i < |s|
      invariant 0 <= i <= |s|
      invariant fresh(x) && fresh(x.stack) && x.Valid(s, i)
    {
      x.ScanScalar(s[i], s, i);
      i := i + 1;
    }
    BinaryCount(s, i);
    if x.stackOverflow == 0 {
      DepthIsNesting(s, i, x.open, x.stack[..x.depth], x.Tally());
      BalancedMatchesAll(s, x.open, x.stack[..x.depth], x.Tally());
    }
    hide MatchedOpeners, EmptyOpeners, ArabicEmptyOpeners, StrayClosers, BinaryOpeners, Tracks, NeverTooDeep;
  }
}
