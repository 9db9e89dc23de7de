/** The built-in text transforms with origins, chains of them, and the search
    through a chain. */
module Search {
  import opened Bits
  import opened Bitstream
  import opened Strip
  import opened Utf8
  import opened UnicodeProperties

  // A chain's steps; Unset stands for a step without a function.
  datatype Step = Casefold | CollapseHspace | DeleteHspace | StripIgnorables | Unset

  datatype Outcome = Success(cells: seq<Cell>) | Failure(status: Status)

  predicate Hspace(b: byte) {
    b == 0x20 || b == 0x09
  }

  function FromView(v: seq<byte>): seq<Cell> {
    seq(|v|, i requires 0 <= i < |v| => Cell(v[i], i))
  }

  function FoldCells(cells: seq<Cell>): seq<Cell> {
    if cells == [] then []
    else
      var last := cells[|cells| - 1];
      FoldCells(cells[..|cells| - 1]) + [Cell(Lower(last.value), last.origin)]
  }

  function DeleteCells(cells: seq<Cell>): seq<Cell> {
    if cells == [] then []
    else
      var last := cells[|cells| - 1];
      DeleteCells(cells[..|cells| - 1]) + (if Hspace(last.value) then [] else [last])
  }

  predicate RunContinues(cells: seq<Cell>, i: nat)
    requires i < |cells|
  {
    i > 0 && Hspace(cells[i - 1].value) && Hspace(cells[i].value)
  }

  function CollapsedTail(cells: seq<Cell>, m: nat): seq<Cell>
    requires m < |cells|
  {
    if RunContinues(cells, m) then []
    else if Hspace(cells[m].value) then [Cell(0x20, cells[m].origin)]
    else [cells[m]]
  }

  // One space, at the run's first origin, for each run.
  function CollapseCells(cells: seq<Cell>): seq<Cell> {
    if cells == [] then []
    else
      var m := |cells| - 1;
      CollapseCells(cells[..m]) +
      CollapsedTail(cells, m)
  }

  ghost function ApplyStep(step: Step, cells: seq<Cell>): Outcome {
    match step
    case Casefold => Success(FoldCells(cells))
    case CollapseHspace => Success(CollapseCells(cells))
    case DeleteHspace => Success(DeleteCells(cells))
    case StripIgnorables => if ValidUtf8(BytesOf(cells)) then Success(StripCells(cells)) else Failure(Eutf8)
    case Unset => Failure(Einval)
  }

  ghost function ApplyChain(chain: seq<Step>, cells: seq<Cell>): Outcome {
    if chain == [] then Success(cells)
    else
      var before := ApplyChain(chain[..|chain| - 1], cells);
      if before.Failure? then before else ApplyStep(chain[|chain| - 1], before.cells)
  }

  // ----- provenance -----

  // What any sequence of transforms can make of a source byte.
  predicate Derived(b: byte, source: byte) {
    b == source || b == Lower(source) || (b == 0x20 && Hspace(source))
  }

  // Every byte comes from the source byte its origin names, in source order.
  ghost predicate Traces(cells: seq<Cell>, source: seq<byte>) {
    && (forall i :: 0 <= i < |cells| ==> cells[i].origin < |source| && Derived(cells[i].value, source[cells[i].origin]))
    && (forall i, j :: 0 <= i < j < |cells| ==> cells[i].origin < cells[j].origin)
  }

  // Nothing of `out` lies after the end of `cells`.
  predicate EndsBy(out: seq<Cell>, cells: seq<Cell>) {
    out != [] ==> cells != [] && out[|out| - 1].origin <= cells[|cells| - 1].origin
  }

  lemma TraceAppend(out: seq<Cell>, cells: seq<Cell>, m: nat, more: seq<Cell>, source: seq<byte>)
    requires Traces(out, source) && Traces(cells, source) && m < |cells| && EndsBy(out, cells[..m])
    requires Traces(more, source) && (more != [] ==> more[0].origin >= cells[m].origin)
    requires more != [] ==> more[|more| - 1].origin <= cells[|cells| - 1].origin
    ensures Traces(out + more, source) && EndsBy(out + more, cells)
  {
    var all := out + more;
    forall i, j | 0 <= i < j < |all|
      ensures all[i].origin < all[j].origin
    {
      if i < |out| <= j {
        assert out[i].origin <= out[|out| - 1].origin;
        assert cells[..m][m - 1] == cells[m - 1];
        assert more[0].origin <= more[j - |out|].origin;
      }
    }
  }

  lemma TracePrefix(cells: seq<Cell>, m: nat, source: seq<byte>)
    requires Traces(cells, source) && m <= |cells|
    ensures Traces(cells[..m], source) && Traces(cells[m..], source)
  {
  }

  lemma OneCell(cells: seq<Cell>, m: nat, b: byte, source: seq<byte>)
    requires Traces(cells, source) && m < |cells|
    requires b == cells[m].value || b == Lower(cells[m].value) || (b == 0x20 && Hspace(cells[m].value))
    ensures Traces([Cell(b, cells[m].origin)], source)
  {
  }

  lemma {:induction false} FoldTraces(cells: seq<Cell>, source: seq<byte>)
    requires Traces(cells, source)
    ensures Traces(FoldCells(cells), source) && EndsBy(FoldCells(cells), cells)
  {
    if cells != [] {
      var m := |cells| - 1;
      TracePrefix(cells, m, source);
      FoldTraces(cells[..m], source);
      OneCell(cells, m, Lower(cells[m].value), source);
      hide Traces, EndsBy;
      TraceAppend(FoldCells(cells[..m]), cells, m, [Cell(Lower(cells[m].value), cells[m].origin)], source);
    }
  }

  lemma {:induction false} DeleteTraces(cells: seq<Cell>, source: seq<byte>)
    requires Traces(cells, source)
    ensures Traces(DeleteCells(cells), source) && EndsBy(DeleteCells(cells), cells)
  {
    if cells != [] {
      var m := |cells| - 1;
      TracePrefix(cells, m, source);
      DeleteTraces(cells[..m], source);
      OneCell(cells, m, cells[m].value, source);
      var more := if Hspace(cells[m].value) then [] else [cells[m]];
      assert Traces(more, source);
      hide Traces, EndsBy;
      TraceAppend(DeleteCells(cells[..m]), cells, m, more, source);
    }
  }

  lemma {:induction false} CollapseTraces(cells: seq<Cell>, source: seq<byte>)
    requires Traces(cells, source)
    ensures Traces(CollapseCells(cells), source) && EndsBy(CollapseCells(cells), cells)
  {
    hide Traces, EndsBy, CollapsedTail;
    NothingTraced(source);
    if cells != [] {
      var m := |cells| - 1;
      TracePrefix(cells, m, source);
      CollapseTraces(cells[..m], source);
      TailTraces(cells, m, source);
      TraceAppend(CollapseCells(cells[..m]), cells, m, CollapsedTail(cells, m), source);
    }
  }

  lemma NothingTraced(source: seq<byte>)
    ensures Traces([], source) && EndsBy([], [])
  {
  }

  lemma TailTraces(cells: seq<Cell>, m: nat, source: seq<byte>)
    requires Traces(cells, source) && m < |cells|
    ensures var more := CollapsedTail(cells, m);
            && Traces(more, source) && |more| <= 1
            && (more != [] ==> more[0].origin == cells[m].origin)
  {
    OneCell(cells, m, if Hspace(cells[m].value) then 0x20 else cells[m].value, source);
  }

  lemma {:induction false} KeptTraces(cells: seq<Cell>, cps: seq<Scalar>, source: seq<byte>)
    requires Traces(cells, source) && |EncodeAll(cps)| == |cells|
    ensures Traces(Kept(cells, cps), source) && EndsBy(Kept(cells, cps), cells)
  {
    hide Encode, Ignorable, Traces, EndsBy;
    if cps == [] {
      NothingTraced(source);
    } else {
      var m := |cps| - 1;
      var k := |EncodeAll(cps[..m])|;
      RestTraces(cells, k, !Ignorable(cps[m]), source);
      KeptTraces(cells[..k], cps[..m], source);
      var more := if Ignorable(cps[m]) then [] else cells[k..];
      TraceAppend(Kept(cells[..k], cps[..m]), cells, k, more, source);
    }
  }

  // What follows a cut traces back too, kept or dropped.
  lemma RestTraces(cells: seq<Cell>, k: nat, keep: bool, source: seq<byte>)
    requires Traces(cells, source) && k < |cells|
    ensures Traces(cells[..k], source)
    ensures var more := if keep then cells[k..] else [];
            && Traces(more, source) && (more != [] ==> more[0] == cells[k])
            && (more != [] ==> more[|more| - 1] == cells[|cells| - 1])
  {
    TracePrefix(cells, k, source);
  }

  // Through any chain that succeeds, origins stay in bounds and increasing
  // and keep naming the byte each output byte came from.
  lemma {:induction false} ChainTraces(chain: seq<Step>, source: seq<byte>)
    ensures var r := ApplyChain(chain, FromView(source)); r.Success? ==> Traces(r.cells, source)
  {
    hide FoldCells, DeleteCells, CollapseCells, Kept, Traces, ValidUtf8;
    if chain == [] {
      ViewTraces(source);
    } else {
      ChainTraces(chain[..|chain| - 1], source);
      var before := ApplyChain(chain[..|chain| - 1], FromView(source));
      if before.Success? {
        FoldTraces(before.cells, source);
        CollapseTraces(before.cells, source);
        DeleteTraces(before.cells, source);
        if ValidUtf8(BytesOf(before.cells)) {
          KeptTraces(before.cells, ScalarsOf(BytesOf(before.cells)), source);
        }
      }
    }
  }

  lemma ViewTraces(source: seq<byte>)
    ensures Traces(FromView(source), source)
  {
  }

  // Collapsing first makes no difference to deleting.
  lemma {:induction false} DeleteAfterCollapse(cells: seq<Cell>)
    ensures DeleteCells(CollapseCells(cells)) == DeleteCells(cells)
  {
    if cells != [] {
      var m := |cells| - 1;
      DeleteAfterCollapse(cells[..m]);
      var before, tail := CollapseCells(cells[..m]), CollapsedTail(cells, m);
      if tail == [] {
        assert before + tail == before;
      } else {
        assert (before + tail)[..|before|] == before && (before + tail)[|before|] == tail[0];
      }
    }
  }

  ghost predicate Settled(cells: seq<Cell>) {
    forall i :: 0 <= i < |cells| ==> !RunContinues(cells, i) && cells[i].value != 0x09
  }

  // A collapsed text has no tab and no two blanks in a row, so collapsing it
  // again changes nothing.
  lemma CollapseSettles(cells: seq<Cell>)
    ensures Settled(CollapseCells(cells)) && CollapseCells(CollapseCells(cells)) == CollapseCells(cells)
  {
    RunsGone(cells);
    SettledStays(CollapseCells(cells));
  }

  lemma {:induction false} RunsGone(cells: seq<Cell>)
    ensures Settled(CollapseCells(cells))
    ensures cells != [] ==> CollapseCells(cells) != [] &&
                            (Hspace(CollapseCells(cells)[|CollapseCells(cells)| - 1].value) <==>
                             Hspace(cells[|cells| - 1].value))
  {
    if cells != [] {
      var m := |cells| - 1;
      RunsGone(cells[..m]);
      var before, tail := CollapseCells(cells[..m]), CollapsedTail(cells, m);
      assert CollapseCells(cells) == before + tail;
      hide CollapseCells;
      if tail != [] {
        SettledAppend(before, tail[0]);
      } else {
        assert before + tail == before;
      }
    }
  }

  lemma SettledAppend(cells: seq<Cell>, c: Cell)
    requires Settled(cells) && c.value != 0x09
    requires cells == [] || !Hspace(cells[|cells| - 1].value) || !Hspace(c.value)
    ensures Settled(cells + [c])
  {
    var out := cells + [c];
    forall i | 0 <= i < |out|
      ensures !RunContinues(out, i) && out[i].value != 0x09
    {
      if i < |cells| {
        assert !RunContinues(cells, i) && out[i] == cells[i];
      }
    }
  }

  lemma {:induction false} SettledStays(cells: seq<Cell>)
    requires Settled(cells)
    ensures CollapseCells(cells) == cells
  {
    if cells != [] {
      var m := |cells| - 1;
      SettledPrefix(cells, m);
      SettledStays(cells[..m]);
      assert !RunContinues(cells, m) && cells == cells[..m] + [cells[m]];
      hide RunContinues, Settled;
    }
  }

  lemma SettledPrefix(cells: seq<Cell>, m: nat)
    requires Settled(cells) && m <= |cells|
    ensures Settled(cells[..m])
  {
    forall i | 0 <= i < m
      ensures !RunContinues(cells[..m], i)
    {
      assert !RunContinues(cells, i);
    }
  }

  // ----- text objects -----

  function Zip(bytes: seq<byte>, origin: seq<nat>): (c: seq<Cell>)
    requires |bytes| == |origin|
    ensures |c| == |bytes| && BytesOf(c) == bytes
  {
    seq(|bytes|, i requires 0 <= i < |bytes| => Cell(bytes[i], origin[i]))
  }

  class Text {
    var bytes: seq<byte>
    var origin: seq<nat>

    ghost predicate Valid()
      reads this
    {
      |bytes| == |origin|
    }

    ghost function Cells(): (c: seq<Cell>)
      requires Valid()
      reads this
      ensures |c| == |bytes| && BytesOf(c) == bytes
      ensures forall i :: 0 <= i < |c| ==> c[i] == Cell(bytes[i], origin[i])
    {
      Zip(bytes, origin)
    }

    constructor ()
      ensures Valid() && Cells() == []
    {
      bytes, origin := [], [];
    }

    constructor FromBytes(v: seq<byte>)
      ensures Valid() && Cells() == FromView(v)
    {
      bytes, origin := v, seq(|v|, i => i);
    }

    method Push(b: byte, at: nat)
      requires Valid()
      modifies this
      ensures Valid() && Cells() == old(Cells()) + [Cell(b, at)]
    {
      ghost var before := Cells();
      bytes, origin := bytes + [b], origin + [at];
      assert Cells() == before + [Cell(b, at)];
    }

    method CopyRange(input: Text, offset: nat, length: nat)
      requires Valid() && input.Valid() && input != this && offset + length <= |input.bytes|
      modifies this
      ensures Valid() && Cells() == old(Cells()) + input.Cells()[offset..offset + length]
    {
      var i := 0;
      ghost var c := input.Cells();
      while i < length
        invariant 0 <= i <= length && Valid()
        invariant Cells() == old(Cells()) + c[offset..offset + i]
      {
        assert c[offset..offset + i + 1] == c[offset..offset + i] + [c[offset + i]];
        assert c[offset + i] == Cell(input.bytes[offset + i], input.origin[offset + i]);
        Push(input.bytes[offset + i], input.origin[offset + i]);
        i := i + 1;
      }
    }
  }

  lemma TakeOne(cells: seq<Cell>, i: nat)
    requires i < |cells|
    ensures FoldCells(cells[..i + 1]) == FoldCells(cells[..i]) + [Cell(Lower(cells[i].value), cells[i].origin)]
    ensures DeleteCells(cells[..i + 1]) ==
            DeleteCells(cells[..i]) + (if Hspace(cells[i].value) then [] else [cells[i]])
    ensures CollapseCells(cells[..i + 1]) ==
            CollapseCells(cells[..i]) + CollapsedTail(cells, i)
  {
    assert cells[..i + 1][..i] == cells[..i];
  }

  method AsciiCasefold(input: Text) returns (output: Text)
    requires input.Valid()
    ensures fresh(output) && output.Valid() && output.Cells() == FoldCells(input.Cells())
  {
    hide FoldCells;
    output := new Text();
    ghost var c := input.Cells();
    FoldNothing(c);
    var i := 0;
    while i < |input.bytes|
      invariant 0 <= i <= |input.bytes| && fresh(output) && output.Valid()
      invariant output.Cells() == FoldCells(c[..i])
    {
      TakeOne(c, i);
      var b := input.bytes[i];
      if 0x41 <= b <= 0x5A {
        b := b + 32;
      }
      output.Push(b, input.origin[i]);
      i := i + 1;
    }
    assert c[..i] == c;
  }

  lemma FoldNothing(cells: seq<Cell>)
    ensures FoldCells(cells[..0]) == DeleteCells(cells[..0]) == CollapseCells(cells[..0]) == []
  {
  }

  method DeleteHorizontal(input: Text) returns (output: Text)
    requires input.Valid()
    ensures fresh(output) && output.Valid() && output.Cells() == DeleteCells(input.Cells())
  {
    hide DeleteCells;
    output := new Text();
    ghost var c := input.Cells();
    FoldNothing(c);
    var i := 0;
    while i < |input.bytes|
      invariant 0 <= i <= |input.bytes| && fresh(output) && output.Valid()
      invariant output.Cells() == DeleteCells(c[..i])
    {
      TakeOne(c, i);
      if !Hspace(input.bytes[i]) {
        output.Push(input.bytes[i], input.origin[i]);
      }
      i := i + 1;
    }
    assert c[..i] == c;
  }

  // A run of blanks collapses to one space at its first origin.
  lemma {:induction false} RunCollapses(cells: seq<Cell>, start: nat, end: nat)
    requires start < end <= |cells| && !RunContinues(cells, start)
    requires forall k :: start <= k < end ==> Hspace(cells[k].value)
    ensures CollapseCells(cells[..end]) == CollapseCells(cells[..start]) + [Cell(0x20, cells[start].origin)]
  {
    TakeOne(cells, end - 1);
    if start < end - 1 {
      RunCollapses(cells, start, end - 1);
      assert CollapsedTail(cells, end - 1) == [];
    }
  }

  method SkipBlanks(input: Text, start: nat) returns (end: nat)
    requires start <= |input.bytes|
    ensures start <= end <= |input.bytes| && (end < |input.bytes| ==> !Hspace(input.bytes[end]))
    ensures forall k :: start <= k < end ==> Hspace(input.bytes[k])
  {
    end := start;
    while end < |input.bytes| && Hspace(input.bytes[end])
      invariant start <= end <= |input.bytes|
      invariant forall k :: start <= k < end ==> Hspace(input.bytes[k])
    {
      end := end + 1;
    }
  }

  method CollapseHorizontal(input: Text) returns (output: Text)
    requires input.Valid()
    ensures fresh(output) && output.Valid() && output.Cells() == CollapseCells(input.Cells())
  {
    hide CollapseCells, Zip;
    output := new Text();
    ghost var c := input.Cells();
    FoldNothing(c);
    var i := 0;
    while i < |input.bytes|
      invariant 0 <= i <= |input.bytes| && fresh(output) && output.Valid()
      invariant output.Cells() == CollapseCells(c[..i])
      invariant i < |input.bytes| ==> !RunContinues(c, i)
      decreases |input.bytes| - i
    {
      if Hspace(input.bytes[i]) {
        var end := SkipBlanks(input, i + 1);
        RunCollapses(c, i, end);
        output.Push(0x20, input.origin[i]);
        i := end;
      } else {
        TakeOne(c, i);
        output.Push(input.bytes[i], input.origin[i]);
        i := i + 1;
      }
    }
    assert c[..i] == c;
  }

  method StripIgnorable(input: Text) returns (status: Status, output: Text)
    requires input.Valid()
    ensures fresh(output) && output.Valid()
    ensures status == if ValidUtf8(input.bytes) then Ok else Eutf8
    ensures status == Ok ==> output.Cells() == StripCells(input.Cells())
  {
    hide EncodeAll, Kept, KeptTo, Ignorable, ValidUtf8, RawCp, Width, Contiguous, Zip;
    output := new Text();
    var valid, found, errorOffset := Foreach(input.bytes);
    if valid != Ok {
      return valid, output;
    }
    ghost var cps, c, n := Values(found), input.Cells(), 0;
    OnlyDecoding(cps, input.bytes);
    KeptEnds(c, cps);
    var i := 0;
    while i < |input.bytes|
      invariant i <= |input.bytes| && n <= |cps| && i == |EncodeAll(cps[..n])| && fresh(output) && output.Valid()
      invariant output.Cells() == KeptTo(c, cps, n)
      decreases |input.bytes| - i
    {
      MoreToRead(cps, n);
      ReparseStep(c, cps, n);
      var w := Width(input.bytes[i]);
      var ignorable := IsIgnorable(RawCp(input.bytes[i..i + w]));
      if !ignorable {
        output.CopyRange(input, i, w);
      }
      i := i + w;
      n := n + 1;
    }
    MoreToRead(cps, n);
    status := Ok;
  }

  method RunChain(v: seq<byte>, chain: seq<Step>) returns (status: Status, result: Text)
    ensures fresh(result) && result.Valid()
    ensures match ApplyChain(chain, FromView(v))
            case Success(cells) => status == Ok && result.Cells() == cells
            case Failure(s) => status == s != Ok
  {
    hide FoldCells, DeleteCells, CollapseCells, StripCells, FromView, ValidUtf8;
    result := new Text.FromBytes(v);
    status := Ok;
    var i := 0;
    while i < |chain|
      invariant 0 <= i <= |chain| && status == Ok && fresh(result) && result.Valid()
      invariant ApplyChain(chain[..i], FromView(v)) == Success(result.Cells())
    {
      ChainStep(chain, i, FromView(v));
      var next: Text;
      match chain[i] {
        case Casefold => next := AsciiCasefold(result);
        case CollapseHspace => next := CollapseHorizontal(result);
        case DeleteHspace => next := DeleteHorizontal(result);
        case StripIgnorables => status, next := StripIgnorable(result);
        case Unset => return Einval, result;
      }
      if status != Ok {
        return status, next;
      }
      result := next;
      i := i + 1;
    }
    assert chain[..i] == chain;
  }

  // A failed step fails the rest of the chain.
  lemma {:induction false} ChainStep(chain: seq<Step>, i: nat, cells: seq<Cell>)
    requires i < |chain|
    ensures var before := ApplyChain(chain[..i], cells);
            before.Success? ==>
              var here := ApplyStep(chain[i], before.cells);
              && ApplyChain(chain[..i + 1], cells) == here
              && (here.Failure? ==> here.status != Ok && ApplyChain(chain, cells) == here)
  {
    hide ApplyStep;
    assert chain[..i + 1][..i] == chain[..i];
    StepFails(chain[i]);
    if ApplyChain(chain[..i + 1], cells).Failure? {
      FailureStays(chain, i + 1, cells);
    }
  }

  lemma StepFails(step: Step)
    ensures forall cells :: ApplyStep(step, cells) != Failure(Ok)
  {
  }

  lemma {:induction false} FailureStays(chain: seq<Step>, i: nat, cells: seq<Cell>)
    requires i <= |chain| && ApplyChain(chain[..i], cells).Failure?
    ensures ApplyChain(chain, cells) == ApplyChain(chain[..i], cells)
    decreases |chain|
  {
    hide ApplyStep;
    if i == |chain| {
      assert chain[..i] == chain;
    } else {
      assert chain[..|chain| - 1][..i] == chain[..i];
      FailureStays(chain[..|chain| - 1], i, cells);
    }
  }

  // ----- search -----

  datatype Match = Match(chain: nat, needle: nat, pos: nat, sourceOffset: nat)

  // The transformed needle occurs in the transformed haystack at m.pos, which
  // came from m.sourceOffset.
  ghost predicate Hit(haystack: seq<byte>, needles: seq<seq<byte>>, chains: seq<seq<Step>>, m: Match) {
    && m.chain < |chains| && m.needle < |needles|
    && var h := ApplyChain(chains[m.chain], FromView(haystack));
       var n := ApplyChain(chains[m.chain], FromView(needles[m.needle]));
    && h.Success? && n.Success? && HitIn(h.cells, n.cells, m)
  }

  predicate HitIn(h: seq<Cell>, n: seq<Cell>, m: Match) {
    && n != [] && m.pos + |n| <= |h|
    && BytesOf(h)[m.pos..m.pos + |n|] == BytesOf(n)
    && m.sourceOffset == h[m.pos].origin
  }

  // Lexicographic order of chain, needle and position.
  predicate Before(m: Match, chain: nat, needle: nat, pos: nat) {
    m.chain < chain || (m.chain == chain && (m.needle < needle || (m.needle == needle && m.pos < pos)))
  }

  // Exactly the hits before a point, in order.
  ghost predicate AllHits(matches: seq<Match>, haystack: seq<byte>, needles: seq<seq<byte>>, chains: seq<seq<Step>>,
                          chain: nat, needle: nat, pos: nat) {
    && (forall m :: m in matches <==> Hit(haystack, needles, chains, m) && Before(m, chain, needle, pos))
    && (forall i, j :: 0 <= i < j < |matches| ==>
          Before(matches[i], matches[j].chain, matches[j].needle, matches[j].pos))
  }

  // A match points at the source byte its first byte was made from.
  lemma SourceOffsetTrue(haystack: seq<byte>, needles: seq<seq<byte>>, chains: seq<seq<Step>>, m: Match)
    requires Hit(haystack, needles, chains, m)
    ensures var n := ApplyChain(chains[m.chain], FromView(needles[m.needle])).cells;
            n != [] && m.sourceOffset < |haystack| && Derived(n[0].value, haystack[m.sourceOffset])
  {
    hide ApplyChain, FromView, Derived;
    ChainTraces(chains[m.chain], haystack);
    var h := ApplyChain(chains[m.chain], FromView(haystack)).cells;
    var n := ApplyChain(chains[m.chain], FromView(needles[m.needle])).cells;
    assert BytesOf(n)[0] == BytesOf(h)[m.pos..m.pos + |n|][0];
  }

  // The step from one position to the next.
  lemma NextPosition(matches: seq<Match>, haystack: seq<byte>, needles: seq<seq<byte>>, chains: seq<seq<Step>>,
                     m: Match)
    requires AllHits(matches, haystack, needles, chains, m.chain, m.needle, m.pos)
    requires forall k: Match ::
               Hit(haystack, needles, chains, k) && (k.chain, k.needle, k.pos) == (m.chain, m.needle, m.pos) ==> k == m
    ensures AllHits(if Hit(haystack, needles, chains, m) then matches + [m] else matches,
                    haystack, needles, chains, m.chain, m.needle, m.pos + 1)
  {
    hide Hit;
    var next := m.pos + 1;
    var out := if Hit(haystack, needles, chains, m) then matches + [m] else matches;
    forall k: Match
      ensures k in out <==> Hit(haystack, needles, chains, k) && Before(k, m.chain, m.needle, next)
    {
    }
    forall i, j | 0 <= i < j < |out|
      ensures Before(out[i], out[j].chain, out[j].needle, out[j].pos)
    {
      assert out[i] in matches;
    }
  }

  // Nothing can match between two points: the later one will do.
  lemma SkipTo(matches: seq<Match>, haystack: seq<byte>, needles: seq<seq<byte>>, chains: seq<seq<Step>>,
               chain: nat, needle: nat, pos: nat, chain': nat, needle': nat)
    requires AllHits(matches, haystack, needles, chains, chain, needle, pos)
    requires forall m: Match :: Hit(haystack, needles, chains, m) ==>
               (Before(m, chain, needle, pos) <==> Before(m, chain', needle', 0))
    ensures AllHits(matches, haystack, needles, chains, chain', needle', 0)
  {
    hide Hit;
  }

  // What the transformed texts decide at one position.
  lemma OnePosition(matches: seq<Match>, haystack: seq<byte>, needles: seq<seq<byte>>, chains: seq<seq<Step>>,
                    m: Match, h: seq<Cell>, n: seq<Cell>)
    requires m.chain < |chains| && m.needle < |needles|
    requires ApplyChain(chains[m.chain], FromView(haystack)) == Success(h)
    requires ApplyChain(chains[m.chain], FromView(needles[m.needle])) == Success(n)
    requires n != [] && m.pos + |n| <= |h| && m.sourceOffset == h[m.pos].origin
    requires AllHits(matches, haystack, needles, chains, m.chain, m.needle, m.pos)
    ensures AllHits(if BytesOf(h)[m.pos..m.pos + |n|] == BytesOf(n) then matches + [m] else matches,
                    haystack, needles, chains, m.chain, m.needle, m.pos + 1)
  {
    hide ApplyChain, FromView, AllHits;
    NextPosition(matches, haystack, needles, chains, m);
  }

  // A needle is done where it no longer fits.
  lemma NextNeedle(matches: seq<Match>, haystack: seq<byte>, needles: seq<seq<byte>>, chains: seq<seq<Step>>,
                   chain: nat, needle: nat, pos: nat, h: seq<Cell>, n: seq<Cell>)
    requires chain < |chains| && needle < |needles|
    requires ApplyChain(chains[chain], FromView(haystack)) == Success(h)
    requires ApplyChain(chains[chain], FromView(needles[needle])) == Success(n)
    requires n == [] || pos + |n| > |h|
    requires AllHits(matches, haystack, needles, chains, chain, needle, pos)
    ensures AllHits(matches, haystack, needles, chains, chain, needle + 1, 0)
  {
    hide ApplyChain, FromView, AllHits;
    SkipTo(matches, haystack, needles, chains, chain, needle, pos, chain, needle + 1);
  }

  lemma NextChain(matches: seq<Match>, haystack: seq<byte>, needles: seq<seq<byte>>, chains: seq<seq<Step>>,
                  chain: nat)
    requires AllHits(matches, haystack, needles, chains, chain, |needles|, 0)
    ensures AllHits(matches, haystack, needles, chains, chain + 1, 0, 0)
  {
    hide ApplyChain, FromView, AllHits;
    SkipTo(matches, haystack, needles, chains, chain, |needles|, 0, chain + 1, 0);
  }

  lemma NoHitsYet(haystack: seq<byte>, needles: seq<seq<byte>>, chains: seq<seq<Step>>)
    ensures AllHits([], haystack, needles, chains, 0, 0, 0)
  {
    hide Hit;
  }

  // Every chain before `chain` applies to the haystack and all needles, and
  // `chain` itself to the needles before `needle`.
  ghost predicate Applies(haystack: seq<byte>, needles: seq<seq<byte>>, chains: seq<seq<Step>>, chain: nat,
                          needle: nat) {
    && chain <= |chains| && needle <= |needles|
    && (forall c :: 0 <= c < chain ==> ApplyChain(chains[c], FromView(haystack)).Success?)
    && (forall c, k :: 0 <= c < chain && 0 <= k < |needles| ==> ApplyChain(chains[c], FromView(needles[k])).Success?)
    && (forall k :: 0 <= k < needle && chain < |chains| ==> ApplyChain(chains[chain], FromView(needles[k])).Success?)
  }

  // The search ends before `needle` of `chain`: every hit before that point is
  // reported, and it either ran to the end or met a chain that fails there.
  ghost predicate EndsAt(status: Status, matches: seq<Match>, haystack: seq<byte>, needles: seq<seq<byte>>,
                         chains: seq<seq<Step>>, chain: nat, needle: nat) {
    && AllHits(matches, haystack, needles, chains, chain, needle, 0)
    && Applies(haystack, needles, chains, chain, needle)
    && (status == Ok ==> chain == |chains|)
    && (status != Ok ==>
          && chain < |chains|
          && ((needle == 0 && ApplyChain(chains[chain], FromView(haystack)) == Failure(status)) ||
              (needle < |needles| && ApplyChain(chains[chain], FromView(needles[needle])) == Failure(status))))
  }

  // Stops at the first chain that fails, on the haystack or on a needle,
  // after reporting every hit before that point; otherwise reports them all.
  method Search(haystack: seq<byte>, needles: seq<seq<byte>>, chains: seq<seq<Step>>)
    returns (status: Status, matches: seq<Match>)
    ensures exists chain: nat, needle: nat :: EndsAt(status, matches, haystack, needles, chains, chain, needle)
  {
    hide ApplyChain, FromView, AllHits, Hit, Zip;
    matches := [];
    NoHitsYet(haystack, needles, chains);
    var ci := 0;
    while ci < |chains|
      invariant 0 <= ci <= |chains|
      invariant AllHits(matches, haystack, needles, chains, ci, 0, 0)
      invariant Applies(haystack, needles, chains, ci, 0)
    {
      var s, h := RunChain(haystack, chains[ci]);
      if s != Ok {
        assert EndsAt(s, matches, haystack, needles, chains, ci, 0);
        return s, matches;
      }
      ghost var hc := h.Cells();
      var ni := 0;
      while ni < |needles|
        invariant 0 <= ni <= |needles| && h.Valid() && h.Cells() == hc
        invariant AllHits(matches, haystack, needles, chains, ci, ni, 0)
        invariant Applies(haystack, needles, chains, ci, ni)
      {
        var t, n := RunChain(needles[ni], chains[ci]);
        if t != Ok {
          assert EndsAt(t, matches, haystack, needles, chains, ci, ni);
          return t, matches;
        }
        ghost var nc := n.Cells();
        var pos := 0;
        if n.bytes != [] {
          while pos + |n.bytes| <= |h.bytes|
            invariant 0 <= pos && h.Valid() && h.Cells() == hc && n.Valid() && n.Cells() == nc
            invariant AllHits(matches, haystack, needles, chains, ci, ni, pos)
            decreases |h.bytes| - pos
          {
            var m := Match(ci, ni, pos, h.origin[pos]);
            OnePosition(matches, haystack, needles, chains, m, hc, nc);
            if h.bytes[pos..pos + |n.bytes|] == n.bytes {
              matches := matches + [m];
            }
            pos := pos + 1;
          }
        }
        NextNeedle(matches, haystack, needles, chains, ci, ni, pos, hc, nc);
        ni := ni + 1;
      }
      NextChain(matches, haystack, needles, chains, ci);
      ci := ci + 1;
    }
    assert EndsAt(Ok, matches, haystack, needles, chains, ci, 0);
    return Ok, matches;
  }
}
