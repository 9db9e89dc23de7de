/** What each text transform leaves, cell by cell. */
module SearchMeaning {
  import opened Bits
  import opened Search
  import opened Strip

  predicate Horizontal(b: byte) {
    b == 32 || b == 9
  }

  // The same cells, ASCII capitals lowered.
  lemma {:induction false} FoldMeans(cells: seq<Cell>)
    ensures var out := FoldCells(cells);
            && |out| == |cells|
            && forall i :: 0 <= i < |cells| ==>
                 && out[i].origin == cells[i].origin
                 && out[i].value == if 65 <= cells[i].value <= 90 then cells[i].value + 32 else cells[i].value
  {
    if cells != [] {
      FoldMeans(cells[..|cells| - 1]);
    }
  }

  // Exactly the cells that hold neither a space nor a tab.
  lemma {:induction false} DeleteMeans(cells: seq<Cell>, c: Cell)
    ensures c in DeleteCells(cells) <==> c in cells && !Horizontal(c.value)
  {
    if cells != [] {
      var m := |cells| - 1;
      DeleteMeans(cells[..m], c);
      assert cells == cells[..m] + [cells[m]];
    }
  }

  // A run of spaces and tabs starts here, or a cell of neither stands here.
  predicate KeptAt(cells: seq<Cell>, i: nat, c: Cell) {
    && i < |cells| && c.origin == cells[i].origin
    && if Horizontal(cells[i].value) then c.value == 32 && (i == 0 || !Horizontal(cells[i - 1].value))
       else c.value == cells[i].value
  }

  // Exactly one space, at the first origin, for each run, and all else.
  lemma {:induction false} CollapseMeans(cells: seq<Cell>, c: Cell)
    ensures c in CollapseCells(cells) <==> exists i: nat :: i < |cells| && KeptAt(cells, i, c)
  {
    if cells != [] {
      var m := |cells| - 1;
      CollapseMeans(cells[..m], c);
      forall i: nat | i < m
        ensures KeptAt(cells, i, c) <==> KeptAt(cells[..m], i, c)
      {
        assert cells[..m][i] == cells[i];
        assert i > 0 ==> cells[..m][i - 1] == cells[i - 1];
      }
      LastCell(cells, c);
      if c in CollapsedTail(cells, m) {
        assert KeptAt(cells, m, c);
      }
      if i: nat :| i < m && KeptAt(cells[..m], i, c) {
        assert KeptAt(cells, i, c);
      }
      assert CollapseCells(cells) == CollapseCells(cells[..m]) + CollapsedTail(cells, m);
    }
  }

  lemma LastCell(cells: seq<Cell>, c: Cell)
    requires cells != []
    ensures c in CollapsedTail(cells, |cells| - 1) <==> KeptAt(cells, |cells| - 1, c)
  {
  }

  // Two lists in source order with the same cells are the same list.
  lemma {:induction false} OrderSettles(a: seq<Cell>, b: seq<Cell>)
    requires forall i, j :: 0 <= i < j < |a| ==> a[i].origin < a[j].origin
    requires forall i, j :: 0 <= i < j < |b| ==> b[i].origin < b[j].origin
    requires forall c :: c in a <==> c in b
    ensures a == b
  {
    if a == [] {
      NoCells(b);
    } else {
      assert a[0] in b && b != [] && b[0] in a;
      assert a[0] == b[0];
      forall c
        ensures c in a[1..] <==> c in b[1..]
      {
        Rest(a, c);
        Rest(b, c);
      }
      OrderSettles(a[1..], b[1..]);
    }
  }

  lemma NoCells(b: seq<Cell>)
    ensures (forall c :: c !in b) ==> b == []
  {
    assert b != [] ==> b[0] in b;
  }

  lemma Rest(a: seq<Cell>, c: Cell)
    requires a != [] && forall i, j :: 0 <= i < j < |a| ==> a[i].origin < a[j].origin
    ensures c in a[1..] <==> c in a && c != a[0]
  {
    assert a == [a[0]] + a[1..];
  }
}
