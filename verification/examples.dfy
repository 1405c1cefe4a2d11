/**
 * Small tables worked through the model: each lemma fixes the resolved table
 * and the only layout it has, so they describe what the constructor does
 * with these inputs.
 */
module Examples {
  import opened Errors
  import opened Layer
  import opened Grid
  import opened Layout
  import opened Gui

  const X := Item(0)
  const Y := Item(1)

  /** A single widget occupies one cell. */
  lemma SingleCell(ps: seq<Placement>)
    requires IsLayout(Resolved([[X]]), ps)
    ensures ps == [Placement(Input(0), 0, 0, 1, 1)]
  {
    var g := [[X]];
    var r := Resolved(g);
    assert r[0][0] == ResolveCell(g, 0, 0) == Input(0);
    assert r[0] == [Input(0)];
    var expected := [Placement(Input(0), 0, 0, 1, 1)];
    assert (0, 0) in Anchors(expected) by {
      assert (expected[0].row as int, expected[0].col as int) == (0, 0);
    }
    assert IsLayout(r, expected);
    LayoutUnique(r, ps, expected);
  }

  /** `___` in both rows under a widget repeated in column 0 makes one 2x2 widget. */
  lemma Block(ps: seq<Placement>)
    requires IsLayout(Resolved([[X, ContLeft], [X, ContLeft]]), ps)
    ensures ps == [Placement(Input(0), 0, 0, 2, 2)]
  {
    var g := [[X, ContLeft], [X, ContLeft]];
    var r := Resolved(g);
    assert ResolveCell(g, 0, 1) == ResolveCell(g, 0, 0) == Input(0);
    assert ResolveCell(g, 1, 1) == ResolveCell(g, 1, 0) == Input(0);
    assert r[0] == [Input(0), Input(0)];
    assert r[1] == [Input(0), Input(0)];
    var expected := [Placement(Input(0), 0, 0, 2, 2)];
    assert (0, 0) in Anchors(expected) by {
      assert (expected[0].row as int, expected[0].col as int) == (0, 0);
    }
    assert IsLayout(r, expected);
    LayoutUnique(r, ps, expected);
  }

  /** `I` under X makes X span two rows, as Y, given twice in column 1, does. */
  lemma Column(ps: seq<Placement>)
    requires IsLayout(Resolved([[X, Y], [ContUp, Y]]), ps)
    ensures ps == [Placement(Input(0), 0, 0, 2, 1), Placement(Input(1), 0, 1, 2, 1)]
  {
    var g := [[X, Y], [ContUp, Y]];
    var r := Resolved(g);
    assert ResolveCell(g, 1, 0) == ResolveCell(g, 0, 0) == Input(0);
    assert ResolveCell(g, 0, 1) == ResolveCell(g, 1, 1) == Input(1);
    assert r[0] == [Input(0), Input(1)];
    assert r[1] == [Input(0), Input(1)];
    var expected := [Placement(Input(0), 0, 0, 2, 1), Placement(Input(1), 0, 1, 2, 1)];
    assert (0, 0) in Anchors(expected) && (0, 1) in Anchors(expected) by {
      assert (expected[0].row as int, expected[0].col as int) == (0, 0);
      assert (expected[1].row as int, expected[1].col as int) == (0, 1);
    }
    assert IsLayout(r, expected);
    LayoutUnique(r, ps, expected);
  }

  /**
   * A widget given twice in a row with another in between: its colspan counts
   * both cells although they are not adjacent.
   */
  lemma NonAdjacent(ps: seq<Placement>)
    requires IsLayout(Resolved([[X, Y, X]]), ps)
    ensures ps == [Placement(Input(0), 0, 0, 1, 2), Placement(Input(1), 0, 1, 1, 1)]
  {
    var g := [[X, Y, X]];
    var r := Resolved(g);
    assert r[0][0] == ResolveCell(g, 0, 0) && r[0][1] == ResolveCell(g, 0, 1) && r[0][2] == ResolveCell(g, 0, 2);
    assert r[0] == [Input(0), Input(1), Input(0)];
    var expected := [Placement(Input(0), 0, 0, 1, 2), Placement(Input(1), 0, 1, 1, 1)];
    assert ColSpan(r, 0, 0) == CountInRow(r[0], Input(0), 0, 3) == 2;
    assert ColSpan(r, 0, 1) == CountInRow(r[0], Input(1), 1, 3) == 1;
    assert IsFirst(r, 0, 1);
    assert ValidPlacement(r, expected[0]) && ValidPlacement(r, expected[1]);
    assert (0, 0) in Anchors(expected) && (0, 1) in Anchors(expected) by {
      assert (expected[0].row as int, expected[0].col as int) == (0, 0);
      assert (expected[1].row as int, expected[1].col as int) == (0, 1);
    }
    assert IsLayout(r, expected);
    LayoutUnique(r, ps, expected);
  }

  /** Two adjacent blanks become two different labels, each one cell wide. */
  lemma TwoBlanks(ps: seq<Placement>)
    requires IsLayout(Resolved([[Blank, Blank]]), ps)
    ensures ps == [Placement(Fresh(0, 0), 0, 0, 1, 1), Placement(Fresh(0, 1), 0, 1, 1, 1)]
  {
    var g := [[Blank, Blank]];
    var r := Resolved(g);
    assert r[0][0] == ResolveCell(g, 0, 0) && r[0][1] == ResolveCell(g, 0, 1);
    assert r[0] == [Fresh(0, 0), Fresh(0, 1)];
    var expected := [Placement(Fresh(0, 0), 0, 0, 1, 1), Placement(Fresh(0, 1), 0, 1, 1, 1)];
    assert ColSpan(r, 0, 0) == CountInRow(r[0], Fresh(0, 0), 0, 2) == 1;
    assert ColSpan(r, 0, 1) == CountInRow(r[0], Fresh(0, 1), 1, 2) == 1;
    assert IsFirst(r, 0, 1);
    assert ValidPlacement(r, expected[0]) && ValidPlacement(r, expected[1]);
    assert (0, 0) in Anchors(expected) && (0, 1) in Anchors(expected) by {
      assert (expected[0].row as int, expected[0].col as int) == (0, 0);
      assert (expected[1].row as int, expected[1].col as int) == (0, 1);
    }
    assert IsLayout(r, expected);
    LayoutUnique(r, ps, expected);
  }

  /** Rows of different lengths raise `ValueError('Row lengths differ')`, and nothing else. */
  lemma RaggedRows(err: Error)
    ensures !WellFormedLayer([Items([X, Y]), Items([X])], MustBeWidget, IsSpecial)
    ensures LayerError([Items([X, Y]), Items([X])], MustBeWidget, IsSpecial, NotWidgetsMessage, err)
      <==> err == ValueError(RowLengthsMessage)
  {
    var lists := [Items([X, Y]), Items([X])];
    assert RowOk(lists[0], 2, MustBeWidget, IsSpecial);
    assert !RowOk(lists[1], 2, MustBeWidget, IsSpecial);
  }

  /** A value that is neither a widget nor a marker raises `TypeError('Elements are not widgets')`. */
  lemma NotAWidget(err: Error)
    ensures !WellFormedLayer([Items([X, Foreign])], MustBeWidget, IsSpecial)
    ensures LayerError([Items([X, Foreign])], MustBeWidget, IsSpecial, NotWidgetsMessage, err)
      <==> err == TypeError(NotWidgetsMessage)
  {
    var lists := [Items([X, Foreign])];
    assert !ElementOk(MustBeWidget, IsSpecial, lists[0].elems[1]);
  }

  /** A string among the rows raises `ValueError('Arguments are not lists (or iterables)')`. */
  lemma StringRow(err: Error)
    ensures !WellFormedLayer([Items([X]), Text("a")], MustBeWidget, IsSpecial)
    ensures LayerError([Items([X]), Text("a")], MustBeWidget, IsSpecial, NotWidgetsMessage, err)
      <==> err == ValueError(NotListsMessage)
  {
    var lists: seq<Arg<Cell>> := [Items([X]), Text("a")];
    assert RowOk(lists[0], 1, MustBeWidget, IsSpecial);
    assert !RowOk(lists[1], 1, MustBeWidget, IsSpecial);
  }
}
