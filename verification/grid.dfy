/**
 * The constructor's input table and its first pass: every cell is replaced,
 * in row-major order, by the identity of the widget that occupies it.
 */
module Grid {
  import opened Wrappers

  /**
   * One cell of the constructor's table: a widget (by identity), the blank
   * label marker `_`, the horizontal continuation `___`, the vertical
   * continuation `I`, or some other value that is not a widget.
   */
  datatype Cell = Item(id: nat) | Blank | ContLeft | ContUp | Foreign

  /**
   * A widget identity after resolution: a widget given by the caller, or the
   * empty label created for the `_` at the given position. Labels created at
   * different positions are different objects.
   */
  datatype Ident = Input(id: nat) | Fresh(row: nat, col: nat)

  /** The markers of `_specials`. */
  predicate IsSpecial(c: Cell) {
    c.Blank? || c.ContLeft? || c.ContUp?
  }

  /** The constructor's element check: a widget or a marker. */
  predicate MustBeWidget(c: Cell) {
    c.Item? || IsSpecial(c)
  }

  predicate Rectangular<T>(g: seq<seq<T>>) {
    forall i :: 0 <= i < |g| ==> |g[i]| == |g[0]|
  }

  predicate InGrid<T>(g: seq<seq<T>>, i: int, j: int) {
    0 <= i < |g| && 0 <= j < |g[i]|
  }

  /** Position (a, b) comes strictly before (c, d) in row-major order. */
  predicate Precedes(a: int, b: int, c: int, d: int) {
    a < c || (a == c && b < d)
  }

  /** Every `___` has a cell to its left and every `I` a cell above it. */
  ghost predicate Anchored(g: seq<seq<Cell>>) {
    forall i, j :: InGrid(g, i, j) ==> (g[i][j].ContLeft? ==> j > 0) && (g[i][j].ContUp? ==> i > 0)
  }

  /** A table the constructor resolves: rectangular, only widgets and markers, markers anchored. */
  ghost predicate Resolvable(g: seq<seq<Cell>>) {
    && Rectangular(g)
    && Anchored(g)
    && forall i, j :: InGrid(g, i, j) ==> MustBeWidget(g[i][j])
  }

  /** The identity that resolution puts at (i, j). */
  function ResolveCell(g: seq<seq<Cell>>, i: nat, j: nat): Ident
    requires Resolvable(g) && InGrid(g, i, j)
    decreases i, j
  {
    var c := g[i][j];
    if c.Blank? then Fresh(i, j)
    else if c.ContLeft? then ResolveCell(g, i, j - 1)
    else if c.ContUp? then ResolveCell(g, i - 1, j)
    else Input(c.id)
  }

  /** The identity a widget cell or a blank cell stands for by itself. */
  function Direct(g: seq<seq<Cell>>, i: nat, j: nat): Ident
    requires InGrid(g, i, j) && (g[i][j].Item? || g[i][j].Blank?)
  {
    if g[i][j].Item? then Input(g[i][j].id) else Fresh(i, j)
  }

  /**
   * The cell a chain of continuation markers starting at (i, j) leads back
   * to: a widget or a blank at or before (i, j), whose identity (i, j) shares.
   */
  function Origin(g: seq<seq<Cell>>, i: nat, j: nat): (o: (nat, nat))
    requires Resolvable(g) && InGrid(g, i, j)
    ensures InGrid(g, o.0, o.1) && (g[o.0][o.1].Item? || g[o.0][o.1].Blank?)
    ensures o == (i, j) || Precedes(o.0, o.1, i, j)
    ensures ResolveCell(g, i, j) == Direct(g, o.0, o.1)
    decreases i, j
  {
    var c := g[i][j];
    if c.ContLeft? then Origin(g, i, j - 1)
    else if c.ContUp? then Origin(g, i - 1, j)
    else (i, j)
  }

  /** The whole resolved table `_step1`. */
  function Resolved(g: seq<seq<Cell>>): seq<seq<Ident>>
    requires Resolvable(g)
  {
    seq(|g|, i requires 0 <= i < |g| => seq(|g[i]|, j requires 0 <= j < |g[i]| => ResolveCell(g, i, j)))
  }

  /** `r` has the shape of `g` and satisfies, cell by cell, the rule for each kind of cell. */
  ghost predicate Resolves(g: seq<seq<Cell>>, r: seq<seq<Ident>>) {
    && |r| == |g|
    && (forall i :: 0 <= i < |g| ==> |r[i]| == |g[i]|)
    && (forall i, j :: InGrid(g, i, j) && g[i][j].Item? ==> r[i][j] == Input(g[i][j].id))
    && (forall i, j :: InGrid(g, i, j) && g[i][j].Blank? ==> r[i][j] == Fresh(i, j))
    && (forall i, j :: InGrid(g, i, j) && g[i][j].ContLeft? && InGrid(g, i, j - 1) ==> r[i][j] == r[i][j - 1])
    && (forall i, j :: InGrid(g, i, j) && g[i][j].ContUp? && InGrid(g, i - 1, j) ==> r[i][j] == r[i - 1][j])
  }

  /**
   * `_step1` before visiting (i, j): shaped like `g`, holding the resolved
   * identity at every cell before (i, j) and `None` at every other cell.
   */
  ghost predicate FilledUpTo(g: seq<seq<Cell>>, step1: seq<seq<Option<Ident>>>, i: int, j: int)
    requires Resolvable(g)
  {
    && |step1| == |g|
    && (forall a :: 0 <= a < |g| ==> |step1[a]| == |g[a]|)
    && (forall a, b :: InGrid(g, a, b) && Precedes(a, b, i, j) ==> step1[a][b] == Some(ResolveCell(g, a, b)))
    && (forall a, b :: InGrid(g, a, b) && !Precedes(a, b, i, j) ==> step1[a][b] == None)
  }

  /**
   * The first loop of the constructor: `_step1` starts as a table of `None`
   * of the input's shape and each cell is written once, in row-major order;
   * a blank becomes a new label, `___` copies the resolved cell to its left,
   * `I` the resolved cell above, and a widget is kept.
   */
  method Resolve(g: seq<seq<Cell>>) returns (r: seq<seq<Ident>>)
    requires Resolvable(g)
    ensures Resolves(g, r)
    ensures r == Resolved(g)
  {
    var step1: seq<seq<Option<Ident>>> := seq(|g|, i requires 0 <= i < |g| => seq(|g[i]|, _ => None));
    var i := 0;
    while i < |g|
      invariant 0 <= i <= |g|
      invariant FilledUpTo(g, step1, i, 0)
    {
      var j := 0;
      while j < |g[i]|
        invariant 0 <= j <= |g[i]|
        invariant FilledUpTo(g, step1, i, j)
      {
        var element := g[i][j];
        var v: Ident;
        if element.Blank? {
          v := Fresh(i, j);
        } else if element.ContLeft? {
          v := step1[i][j - 1].value;
        } else if element.ContUp? {
          v := step1[i - 1][j].value;
        } else {
          v := Input(element.id);
        }
        Fill(g, step1, i, j, v);
        step1 := step1[i := step1[i][j := Some(v)]];
        j := j + 1;
      }
      NextRowFilled(g, step1, i);
      i := i + 1;
    }
    r := seq(|g|, a requires 0 <= a < |g| => seq(|g[a]|, b requires 0 <= b < |g[a]| => step1[a][b].value));
    assert forall a :: 0 <= a < |g| ==> r[a] == Resolved(g)[a];
    ResolvedResolves(g);
  }

  lemma NextRowFilled(g: seq<seq<Cell>>, step1: seq<seq<Option<Ident>>>, i: nat)
    requires Resolvable(g) && i < |g| && FilledUpTo(g, step1, i, |g[i]|)
    ensures FilledUpTo(g, step1, i + 1, 0)
  {
  }

  /** The resolved table satisfies the rule for each kind of cell. */
  lemma ResolvedResolves(g: seq<seq<Cell>>)
    requires Resolvable(g)
    ensures Resolves(g, Resolved(g))
  {
  }

  lemma Fill(g: seq<seq<Cell>>, step1: seq<seq<Option<Ident>>>, i: nat, j: nat, v: Ident)
    requires Resolvable(g) && InGrid(g, i, j) && FilledUpTo(g, step1, i, j)
    requires v == ResolveCell(g, i, j)
    ensures FilledUpTo(g, step1[i := step1[i][j := Some(v)]], i, j + 1)
  {
  }

  /**
   * The cell-by-cell rules determine the resolved table: any table that
   * satisfies them is the one resolution computes.
   */
  lemma ResolvesUnique(g: seq<seq<Cell>>, r: seq<seq<Ident>>)
    requires Resolvable(g) && Resolves(g, r)
    ensures r == Resolved(g)
  {
    forall a | 0 <= a < |g|
      ensures r[a] == Resolved(g)[a]
    {
      forall b | 0 <= b < |g[a]|
        ensures r[a][b] == ResolveCell(g, a, b)
      {
        ResolvesCell(g, r, a, b);
      }
    }
  }

  lemma {:induction false} ResolvesCell(g: seq<seq<Cell>>, r: seq<seq<Ident>>, i: nat, j: nat)
    requires Resolvable(g) && Resolves(g, r) && InGrid(g, i, j)
    ensures r[i][j] == ResolveCell(g, i, j)
    decreases i, j
  {
    if g[i][j].ContLeft? {
      ResolvesCell(g, r, i, j - 1);
    } else if g[i][j].ContUp? {
      ResolvesCell(g, r, i - 1, j);
    }
  }

  /**
   * Two cells hold the same widget exactly when their marker chains lead to
   * the same cell, or to two cells holding the same caller-supplied widget.
   */
  lemma SameIdentity(g: seq<seq<Cell>>, i: nat, j: nat, a: nat, b: nat)
    requires Resolvable(g) && InGrid(g, i, j) && InGrid(g, a, b)
    ensures var o, p := Origin(g, i, j), Origin(g, a, b);
      ResolveCell(g, i, j) == ResolveCell(g, a, b)
      <==> o == p || (g[o.0][o.1].Item? && g[p.0][p.1].Item? && g[o.0][o.1].id == g[p.0][p.1].id)
  {
  }

  /**
   * The label created for a blank is a new object: it is found only in the
   * cells whose marker chains lead back to that blank.
   */
  lemma FreshLabel(g: seq<seq<Cell>>, i: nat, j: nat, a: nat, b: nat)
    requires Resolvable(g) && InGrid(g, i, j)
    ensures ResolveCell(g, i, j) == Fresh(a, b) <==> Origin(g, i, j) == (a, b) && g[a][b].Blank?
  {
  }

  /** A table without markers resolves to its own widgets. */
  lemma MarkerFreeUnchanged(g: seq<seq<Cell>>)
    requires Resolvable(g)
    requires forall i, j :: InGrid(g, i, j) ==> g[i][j].Item?
    ensures forall i, j :: InGrid(g, i, j) ==> Resolved(g)[i][j] == Input(g[i][j].id)
  {
  }
}
