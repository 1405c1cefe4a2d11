/**
 * The constructor's second pass: each distinct widget of the resolved table
 * is added to the grid layout once, at its first row-major cell, with its
 * row and column spans counted from that cell.
 */
module Layout {
  import opened Grid

  /** One `addWidget(element, row, col, rowspan, colspan)` call. */
  datatype Placement = Placement(ident: Ident, row: nat, col: nat, rowspan: nat, colspan: nat)

  /** The number of rows `lo <= ii < hi` whose cell in column `col` holds `e`. */
  function CountInColumn(r: seq<seq<Ident>>, col: nat, e: Ident, lo: nat, hi: nat): nat
    requires hi <= |r|
    decreases hi
  {
    if hi <= lo then 0
    else CountInColumn(r, col, e, lo, hi - 1) + (if col < |r[hi - 1]| && r[hi - 1][col] == e then 1 else 0)
  }

  /** The number of columns `lo <= jj < hi` of `row` that hold `e`. */
  function CountInRow(row: seq<Ident>, e: Ident, lo: nat, hi: nat): nat
    requires hi <= |row|
    decreases hi
  {
    if hi <= lo then 0
    else CountInRow(row, e, lo, hi - 1) + (if row[hi - 1] == e then 1 else 0)
  }

  /** Rows at or below (i, j), in column j, that hold the widget at (i, j), adjacent or not. */
  function RowSpan(r: seq<seq<Ident>>, i: nat, j: nat): nat
    requires InGrid(r, i, j)
  {
    CountInColumn(r, j, r[i][j], i, |r|)
  }

  /** Columns at or right of (i, j), in row i, that hold the widget at (i, j), adjacent or not. */
  function ColSpan(r: seq<seq<Ident>>, i: nat, j: nat): nat
    requires InGrid(r, i, j)
  {
    CountInRow(r[i], r[i][j], j, |r[i]|)
  }

  /** No cell before (i, j) in row-major order holds the widget at (i, j). */
  ghost predicate IsFirst(r: seq<seq<Ident>>, i: nat, j: nat)
    requires InGrid(r, i, j)
  {
    forall a, b :: InGrid(r, a, b) && Precedes(a, b, i, j) ==> r[a][b] != r[i][j]
  }

  /** A placement of the widget found at its anchor, which is that widget's first cell. */
  ghost predicate ValidPlacement(r: seq<seq<Ident>>, p: Placement) {
    && InGrid(r, p.row, p.col)
    && r[p.row][p.col] == p.ident
    && IsFirst(r, p.row, p.col)
    && p.rowspan == RowSpan(r, p.row, p.col)
    && p.colspan == ColSpan(r, p.row, p.col)
  }

  function Anchors(ps: seq<Placement>): set<(int, int)> {
    set k | 0 <= k < |ps| :: (ps[k].row as int, ps[k].col as int)
  }

  function Idents(ps: seq<Placement>): set<Ident> {
    set k | 0 <= k < |ps| :: ps[k].ident
  }

  /**
   * `ps` is the layout of `r`: one valid placement per first occurrence of a
   * widget, in row-major order of the anchors.
   */
  ghost predicate IsLayout(r: seq<seq<Ident>>, ps: seq<Placement>) {
    && (forall k :: 0 <= k < |ps| ==> ValidPlacement(r, ps[k]))
    && (forall k, l :: 0 <= k < l < |ps| ==> Precedes(ps[k].row, ps[k].col, ps[l].row, ps[l].col))
    && (forall a, b :: InGrid(r, a, b) && IsFirst(r, a, b) ==> (a, b) in Anchors(ps))
  }

  /** The rowspan loop: counts matching cells from row i to the last row. */
  method CountDown(r: seq<seq<Ident>>, i: nat, j: nat, element: Ident) returns (rowspan: nat)
    requires Rectangular(r) && InGrid(r, i, j)
    ensures rowspan == CountInColumn(r, j, element, i, |r|)
  {
    rowspan := 0;
    var ii := i;
    while ii < |r|
      invariant i <= ii <= |r|
      invariant rowspan == CountInColumn(r, j, element, i, ii)
    {
      if r[ii][j] == element {
        rowspan := rowspan + 1;
      }
      ii := ii + 1;
    }
  }

  /** The colspan loop: counts matching cells from column j to the end of the row. */
  method CountRight(row: seq<Ident>, j: nat, element: Ident) returns (colspan: nat)
    requires j < |row|
    ensures colspan == CountInRow(row, element, j, |row|)
  {
    colspan := 0;
    var jj := j;
    while jj < |row|
      invariant j <= jj <= |row|
      invariant colspan == CountInRow(row, element, j, jj)
    {
      if row[jj] == element {
        colspan := colspan + 1;
      }
      jj := jj + 1;
    }
  }

  /**
   * The state of the placement loop before visiting (i, j): the placements
   * so far are valid and ordered and anchored before (i, j), every first
   * occurrence before (i, j) has been placed, and `done` holds exactly the
   * placed widgets, which include every widget seen so far.
   */
  ghost predicate Progress(r: seq<seq<Ident>>, ps: seq<Placement>, done: set<Ident>, i: int, j: int) {
    && (forall k :: 0 <= k < |ps| ==> ValidPlacement(r, ps[k]) && Precedes(ps[k].row, ps[k].col, i, j))
    && (forall k, l :: 0 <= k < l < |ps| ==> Precedes(ps[k].row, ps[k].col, ps[l].row, ps[l].col))
    && (forall a, b :: InGrid(r, a, b) && Precedes(a, b, i, j) && IsFirst(r, a, b) ==> (a, b) in Anchors(ps))
    && (forall a, b :: InGrid(r, a, b) && Precedes(a, b, i, j) ==> r[a][b] in done)
    && done == Idents(ps)
  }

  /**
   * The placement loop of the constructor: each cell whose widget is not yet
   * in `done` is placed at that cell with its counted spans.
   */
  method Place(r: seq<seq<Ident>>) returns (ps: seq<Placement>)
    requires Rectangular(r)
    ensures IsLayout(r, ps)
  {
    ps := [];
    var done: set<Ident> := {};
    var i := 0;
    while i < |r|
      invariant 0 <= i <= |r|
      invariant Progress(r, ps, done, i, 0)
    {
      var j := 0;
      while j < |r[i]|
        invariant 0 <= j <= |r[i]|
        invariant Progress(r, ps, done, i, j)
      {
        var element := r[i][j];
        if element !in done {
          var rowspan := CountDown(r, i, j, element);
          var colspan := CountRight(r[i], j, element);
          PlaceStep(r, ps, done, i, j, rowspan, colspan);
          ps := ps + [Placement(element, i, j, rowspan, colspan)];
          done := done + {element};
        } else {
          SkipStep(r, ps, done, i, j);
        }
        j := j + 1;
      }
      NextRow(r, ps, done, i);
      i := i + 1;
    }
  }

  lemma PlaceStep(r: seq<seq<Ident>>, ps: seq<Placement>, done: set<Ident>, i: nat, j: nat, rowspan: nat, colspan: nat)
    requires InGrid(r, i, j) && Progress(r, ps, done, i, j) && r[i][j] !in done
    requires rowspan == RowSpan(r, i, j) && colspan == ColSpan(r, i, j)
    ensures Progress(r, ps + [Placement(r[i][j], i, j, rowspan, colspan)], done + {r[i][j]}, i, j + 1)
  {
    var p := Placement(r[i][j], i, j, rowspan, colspan);
    assert IsFirst(r, i, j);
    AppendPlacement(r, ps, p);
    AppendSets(ps, p);
  }

  lemma AppendPlacement(r: seq<seq<Ident>>, ps: seq<Placement>, p: Placement)
    requires forall k :: 0 <= k < |ps| ==> ValidPlacement(r, ps[k]) && Precedes(ps[k].row, ps[k].col, p.row, p.col)
    requires forall k, l :: 0 <= k < l < |ps| ==> Precedes(ps[k].row, ps[k].col, ps[l].row, ps[l].col)
    requires ValidPlacement(r, p)
    ensures forall k :: 0 <= k < |ps + [p]| ==> ValidPlacement(r, (ps + [p])[k]) && Precedes((ps + [p])[k].row, (ps + [p])[k].col, p.row, p.col + 1)
    ensures forall k, l :: 0 <= k < l < |ps + [p]| ==> Precedes((ps + [p])[k].row, (ps + [p])[k].col, (ps + [p])[l].row, (ps + [p])[l].col)
  {
    var ps' := ps + [p];
    assert forall k :: 0 <= k < |ps| ==> ps'[k] == ps[k];
  }

  lemma AppendSets(ps: seq<Placement>, p: Placement)
    ensures Anchors(ps + [p]) == Anchors(ps) + {(p.row as int, p.col as int)}
    ensures Idents(ps + [p]) == Idents(ps) + {p.ident}
  {
    var ps' := ps + [p];
    assert forall k :: 0 <= k < |ps| ==> ps'[k] == ps[k];
    assert ps'[|ps|] == p;
  }

  lemma SkipStep(r: seq<seq<Ident>>, ps: seq<Placement>, done: set<Ident>, i: nat, j: nat)
    requires InGrid(r, i, j) && Progress(r, ps, done, i, j) && r[i][j] in done
    ensures Progress(r, ps, done, i, j + 1)
  {
    var k :| 0 <= k < |ps| && ps[k].ident == r[i][j];
    assert !IsFirst(r, i, j) by {
      assert ValidPlacement(r, ps[k]);
      assert InGrid(r, ps[k].row, ps[k].col) && Precedes(ps[k].row, ps[k].col, i, j);
    }
    Advance(r, ps, done, i, j);
  }

  lemma Advance(r: seq<seq<Ident>>, ps: seq<Placement>, done: set<Ident>, i: nat, j: nat)
    requires InGrid(r, i, j) && Progress(r, ps, done, i, j) && r[i][j] in done
    requires IsFirst(r, i, j) ==> (i, j) in Anchors(ps)
    ensures Progress(r, ps, done, i, j + 1)
  {
  }

  lemma NextRow(r: seq<seq<Ident>>, ps: seq<Placement>, done: set<Ident>, i: nat)
    requires i < |r| && Progress(r, ps, done, i, |r[i]|)
    ensures Progress(r, ps, done, i + 1, 0)
  {
  }

  /** The anchors of a layout are exactly the first occurrences of widgets. */
  lemma AnchorsAreFirsts(r: seq<seq<Ident>>, ps: seq<Placement>, a: int, b: int)
    requires IsLayout(r, ps)
    ensures (a, b) in Anchors(ps) <==> InGrid(r, a, b) && IsFirst(r, a, b)
  {
    if (a, b) in Anchors(ps) {
      var k :| 0 <= k < |ps| && (ps[k].row as int, ps[k].col as int) == (a, b);
      assert ValidPlacement(r, ps[k]);
    }
  }

  /** No widget is placed twice. */
  lemma PlacedOnce(r: seq<seq<Ident>>, ps: seq<Placement>)
    requires IsLayout(r, ps)
    ensures forall k, l :: 0 <= k < l < |ps| ==> ps[k].ident != ps[l].ident
  {
    forall k, l | 0 <= k < l < |ps|
      ensures ps[k].ident != ps[l].ident
    {
      assert ValidPlacement(r, ps[k]) && ValidPlacement(r, ps[l]);
      assert Precedes(ps[k].row, ps[k].col, ps[l].row, ps[l].col);
    }
  }

  /** Every widget has a first occurrence, at or before any cell that holds it. */
  lemma {:induction false} FirstOccurrence(r: seq<seq<Ident>>, a: nat, b: nat) returns (c: nat, d: nat)
    requires InGrid(r, a, b)
    ensures InGrid(r, c, d) && IsFirst(r, c, d) && r[c][d] == r[a][b]
    ensures (c, d) == (a, b) || Precedes(c, d, a, b)
    decreases a, b
  {
    if IsFirst(r, a, b) {
      c, d := a, b;
    } else {
      var a': nat, b': nat :| InGrid(r, a', b') && Precedes(a', b', a, b) && r[a'][b'] == r[a][b];
      c, d := FirstOccurrence(r, a', b');
    }
  }

  /** Every widget of the resolved table is placed. */
  lemma EveryWidgetPlaced(r: seq<seq<Ident>>, ps: seq<Placement>)
    requires IsLayout(r, ps)
    ensures forall a, b :: InGrid(r, a, b) ==> r[a][b] in Idents(ps)
  {
    forall a, b | InGrid(r, a, b)
      ensures r[a][b] in Idents(ps)
    {
      var c, d := FirstOccurrence(r, a, b);
      assert (c as int, d as int) in Anchors(ps);
      var k :| 0 <= k < |ps| && (ps[k].row as int, ps[k].col as int) == (c as int, d as int);
      assert ValidPlacement(r, ps[k]);
    }
  }

  lemma {:induction false} CountInColumnBounds(r: seq<seq<Ident>>, col: nat, e: Ident, lo: nat, hi: nat)
    requires lo <= hi <= |r|
    ensures CountInColumn(r, col, e, lo, hi) <= hi - lo
    ensures lo < hi && col < |r[lo]| && r[lo][col] == e ==> CountInColumn(r, col, e, lo, hi) >= 1
    decreases hi
  {
    if lo < hi {
      CountInColumnBounds(r, col, e, lo, hi - 1);
    }
  }

  lemma {:induction false} CountInRowBounds(row: seq<Ident>, e: Ident, lo: nat, hi: nat)
    requires lo <= hi <= |row|
    ensures CountInRow(row, e, lo, hi) <= hi - lo
    ensures lo < hi && row[lo] == e ==> CountInRow(row, e, lo, hi) >= 1
    decreases hi
  {
    if lo < hi {
      CountInRowBounds(row, e, lo, hi - 1);
    }
  }

  /** A widget spans at least its anchor and no further than the table's edge. */
  lemma SpanBounds(r: seq<seq<Ident>>, p: Placement)
    requires ValidPlacement(r, p)
    ensures 1 <= p.rowspan <= |r| - p.row
    ensures 1 <= p.colspan <= |r[p.row]| - p.col
  {
    CountInColumnBounds(r, p.col, p.ident, p.row, |r|);
    CountInRowBounds(r[p.row], p.ident, p.col, |r[p.row]|);
  }

  /**
   * The rowspan is the number of rows at or below the anchor whose cell in
   * the anchor's column holds the widget, whether or not they are adjacent.
   */
  lemma {:induction false} CountInColumnIsCardinality(r: seq<seq<Ident>>, col: nat, e: Ident, lo: nat, hi: nat)
    requires hi <= |r|
    ensures CountInColumn(r, col, e, lo, hi) == |set ii | lo <= ii < hi && col < |r[ii]| && r[ii][col] == e|
    decreases hi
  {
    var rows := set ii | lo <= ii < hi && col < |r[ii]| && r[ii][col] == e;
    if hi <= lo {
      assert rows == {};
    } else {
      CountInColumnIsCardinality(r, col, e, lo, hi - 1);
      var before := set ii | lo <= ii < hi - 1 && col < |r[ii]| && r[ii][col] == e;
      if col < |r[hi - 1]| && r[hi - 1][col] == e {
        assert rows == before + {hi - 1};
      } else {
        assert rows == before;
      }
    }
  }

  /**
   * The colspan is the number of columns at or right of the anchor in the
   * anchor's row that hold the widget, whether or not they are adjacent.
   */
  lemma {:induction false} CountInRowIsCardinality(row: seq<Ident>, e: Ident, lo: nat, hi: nat)
    requires hi <= |row|
    ensures CountInRow(row, e, lo, hi) == |set jj | lo <= jj < hi && row[jj] == e|
    decreases hi
  {
    var cols := set jj | lo <= jj < hi && row[jj] == e;
    if hi <= lo {
      assert cols == {};
    } else {
      CountInRowIsCardinality(row, e, lo, hi - 1);
      var before := set jj | lo <= jj < hi - 1 && row[jj] == e;
      if row[hi - 1] == e {
        assert cols == before + {hi - 1};
      } else {
        assert cols == before;
      }
    }
  }

  lemma HeadIsMember<T>(t: seq<T>)
    requires |t| > 0
    ensures t[0] in t
  {
  }

  /** Two row-major ordered sequences of positions with the same members are equal. */
  lemma {:induction false} OrderedUnique(s: seq<(int, int)>, t: seq<(int, int)>)
    requires forall k, l :: 0 <= k < l < |s| ==> Precedes(s[k].0, s[k].1, s[l].0, s[l].1)
    requires forall k, l :: 0 <= k < l < |t| ==> Precedes(t[k].0, t[k].1, t[l].0, t[l].1)
    requires forall x :: x in s <==> x in t
    ensures s == t
    decreases |s|
  {
    if |s| == 0 {
      if |t| > 0 {
        HeadIsMember(t);
      }
    } else {
      assert s[0] in t;
      assert |t| > 0;
      assert t[0] in s;
      var m :| 0 <= m < |t| && t[m] == s[0];
      var k :| 0 <= k < |s| && s[k] == t[0];
      assert m == 0 || k == 0;
      forall x
        ensures x in s[1..] <==> x in t[1..]
      {
        if x in s[1..] {
          var k :| 0 <= k < |s| - 1 && s[1..][k] == x;
          assert Precedes(s[0].0, s[0].1, s[k + 1].0, s[k + 1].1);
          assert x in t;
          var m :| 0 <= m < |t| && t[m] == x;
          assert t[1..][m - 1] == x;
        }
        if x in t[1..] {
          var k :| 0 <= k < |t| - 1 && t[1..][k] == x;
          assert Precedes(t[0].0, t[0].1, t[k + 1].0, t[k + 1].1);
          assert x in s;
          var m :| 0 <= m < |s| && s[m] == x;
          assert s[1..][m - 1] == x;
        }
      }
      OrderedUnique(s[1..], t[1..]);
      assert s == [s[0]] + s[1..];
      assert t == [t[0]] + t[1..];
    }
  }

  function AnchorSeq(ps: seq<Placement>): (s: seq<(int, int)>)
    ensures |s| == |ps|
  {
    seq(|ps|, k requires 0 <= k < |ps| => (ps[k].row as int, ps[k].col as int))
  }

  lemma AnchorSeqMembers(ps: seq<Placement>, x: (int, int))
    ensures x in AnchorSeq(ps) <==> x in Anchors(ps)
  {
    var s := AnchorSeq(ps);
    if x in s {
      var k :| 0 <= k < |s| && s[k] == x;
      assert (ps[k].row as int, ps[k].col as int) in Anchors(ps);
    }
    if x in Anchors(ps) {
      var k :| 0 <= k < |ps| && (ps[k].row as int, ps[k].col as int) == x;
      assert s[k] == x;
    }
  }

  /** A table has only one layout: the placements are determined by the resolved table. */
  lemma LayoutUnique(r: seq<seq<Ident>>, ps: seq<Placement>, qs: seq<Placement>)
    requires IsLayout(r, ps) && IsLayout(r, qs)
    ensures ps == qs
  {
    var s, t := AnchorSeq(ps), AnchorSeq(qs);
    forall x
      ensures x in s <==> x in t
    {
      AnchorsAreFirsts(r, ps, x.0, x.1);
      AnchorsAreFirsts(r, qs, x.0, x.1);
      AnchorSeqMembers(ps, x);
      AnchorSeqMembers(qs, x);
    }
    OrderedUnique(s, t);
    forall k | 0 <= k < |ps|
      ensures ps[k] == qs[k]
    {
      assert s[k] == t[k];
      assert ValidPlacement(r, ps[k]) && ValidPlacement(r, qs[k]);
    }
  }
}
