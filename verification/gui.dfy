/**
 * The `Gui` object: its constructor (layer check, marker resolution,
 * placement, name registration) and the attribute lookup by name or alias.
 */
module Gui {
  import opened Wrappers
  import opened Errors
  import opened Names
  import opened Layer
  import opened Grid
  import opened Layout
  import opened Registry

  /**
   * What the constructor leaves behind: the `addWidget` calls made on the
   * grid layout, the registry `_widgets` and the alias table `_aliases`.
   */
  datatype State = State(placements: seq<Placement>, widgets: map<string, Ident>, aliases: map<string, string>)

  const NotWidgetsMessage := "Elements are not widgets"

  /**
   * Every `___` given to the constructor has a column to its left and every
   * `I` a row above. Only needed once the layer check has passed.
   */
  ghost predicate MarkersAnchored(lists: seq<Arg<Cell>>) {
    forall i, j :: 0 <= i < |lists| && lists[i].Items? && 0 <= j < |lists[i].elems| ==>
      (lists[i].elems[j].ContLeft? ==> j > 0) && (lists[i].elems[j].ContUp? ==> i > 0)
  }

  /**
   * Every widget the caller put in the table has a `text()` method. A
   * `QWidget` need not have one (`QSlider`, `QTextEdit`, `QComboBox` do not).
   */
  ghost predicate CallerWidgetsHaveText(lists: seq<Arg<Cell>>, hasText: nat -> bool) {
    forall i, j :: 0 <= i < |lists| && lists[i].Items? && 0 <= j < |lists[i].elems| && lists[i].elems[j].Item? ==>
      hasText(lists[i].elems[j].id)
  }

  /** The constructor's arguments as a table, once every argument is known to be a list. */
  function Table(lists: seq<Arg<Cell>>): (g: seq<seq<Cell>>)
    requires forall i :: 0 <= i < |lists| ==> lists[i].Items?
    ensures |g| == |lists| && forall i :: 0 <= i < |lists| ==> g[i] == lists[i].elems
  {
    seq(|lists|, i requires 0 <= i < |lists| => lists[i].elems)
  }

  /** Whether `element.text()` exists: for a caller's widget `hasText` says; a new `QLabel` has one. */
  predicate HasText(hasText: nat -> bool, x: Ident) {
    match x
    case Input(id) => hasText(id)
    case Fresh(_, _) => true
  }

  /**
   * `element.text()`: a caller's widget has the text `textOf` gives it, a new
   * label the empty text. Only read for widgets with `HasText`.
   */
  function WidgetText(textOf: nat -> string, x: Ident): string {
    match x
    case Input(id) => textOf(id)
    case Fresh(_, _) => ""
  }

  /** The default name of a widget: its normalized text. */
  function DefaultName(textOf: nat -> string, isAlnum: char -> bool, x: Ident): string {
    Normalize(isAlnum, WidgetText(textOf, x))
  }

  /** The placed widgets, in placement order. */
  function PlacedWidgets(ps: seq<Placement>): (ws: seq<Ident>)
    ensures |ws| == |ps| && forall k :: 0 <= k < |ps| ==> ws[k] == ps[k].ident
  {
    seq(|ps|, k requires 0 <= k < |ps| => ps[k].ident)
  }

  /**
   * `s` is the object built from a well-formed layer of widgets with text:
   * the layout of the resolved table, each placed widget registered once
   * under its default name, and no aliases.
   */
  ghost predicate Built(lists: seq<Arg<Cell>>, textOf: nat -> string, hasText: nat -> bool, isAlnum: char -> bool, s: State) {
    && WellFormedLayer(lists, MustBeWidget, IsSpecial)
    && CallerWidgetsHaveText(lists, hasText)
    && (forall k :: 0 <= k < |s.placements| ==> HasText(hasText, s.placements[k].ident))
    && Resolvable(Table(lists))
    && IsLayout(Resolved(Table(lists)), s.placements)
    && s.widgets == RegisterAll(map[], PlacedWidgets(s.placements), x => DefaultName(textOf, isAlnum, x))
    && |s.widgets| == |s.placements|
    && Injective(s.widgets)
    && s.aliases == map[]
  }

  /**
   * `Gui.__init__`: raises what the layer check raises; then raises
   * AttributeError when `element.text()` is missing for a placed widget;
   * otherwise builds the layout and the registry from the table.
   */
  method New(lists: seq<Arg<Cell>>, textOf: nat -> string, hasText: nat -> bool, isAlnum: char -> bool)
    returns (r: Result<State, Error>)
    requires WellFormedLayer(lists, MustBeWidget, IsSpecial) ==> MarkersAnchored(lists)
    ensures r.Success? <==> WellFormedLayer(lists, MustBeWidget, IsSpecial) && CallerWidgetsHaveText(lists, hasText)
    ensures !WellFormedLayer(lists, MustBeWidget, IsSpecial) ==>
      r.Failure? && LayerError(lists, MustBeWidget, IsSpecial, NotWidgetsMessage, r.error)
    ensures WellFormedLayer(lists, MustBeWidget, IsSpecial) && !CallerWidgetsHaveText(lists, hasText) ==>
      r == Failure(AttributeError)
    ensures r.Success? ==> Built(lists, textOf, hasText, isAlnum, r.value)
  {
    var check := LayerCheck(lists, MustBeWidget, IsSpecial, NotWidgetsMessage);
    if check.Fail? {
      return Failure(check.error);
    }
    var g := Table(lists);
    assert Resolvable(g) by {
      assert forall i, j :: InGrid(g, i, j) ==> ElementOk(MustBeWidget, IsSpecial, lists[i].elems[j]);
    }
    var step1 := Resolve(g);
    var ps := Place(step1);
    TextAtPlacement(lists, hasText, ps);
    if exists k :: 0 <= k < |ps| && !HasText(hasText, ps[k].ident) {
      return Failure(AttributeError);
    }
    PlacedOnce(step1, ps);
    var nameOf := x => DefaultName(textOf, isAlnum, x);
    var widgets := RegisterAll(map[], PlacedWidgets(ps), nameOf);
    RegisterAllInjective(map[], PlacedWidgets(ps), nameOf);
    return Success(State(ps, widgets, map[]));
  }

  /**
   * The text check made at each placement passes for every placement exactly
   * when every widget the caller put in the table has a text.
   */
  lemma TextAtPlacement(lists: seq<Arg<Cell>>, hasText: nat -> bool, ps: seq<Placement>)
    requires WellFormedLayer(lists, MustBeWidget, IsSpecial) && MarkersAnchored(lists)
    requires Resolvable(Table(lists)) && IsLayout(Resolved(Table(lists)), ps)
    ensures CallerWidgetsHaveText(lists, hasText) <==> forall k :: 0 <= k < |ps| ==> HasText(hasText, ps[k].ident)
  {
    var g := Table(lists);
    var r := Resolved(g);
    if CallerWidgetsHaveText(lists, hasText) {
      forall k | 0 <= k < |ps|
        ensures HasText(hasText, ps[k].ident)
      {
        assert ValidPlacement(r, ps[k]);
        var o := Origin(g, ps[k].row, ps[k].col);
        assert r[ps[k].row][ps[k].col] == Direct(g, o.0, o.1);
      }
    } else {
      var i, j :| 0 <= i < |lists| && lists[i].Items? && 0 <= j < |lists[i].elems| && lists[i].elems[j].Item?
        && !hasText(lists[i].elems[j].id);
      EveryWidgetPlaced(r, ps);
      assert InGrid(r, i, j) && r[i][j] == Input(lists[i].elems[j].id);
      assert r[i][j] in Idents(ps);
      var k :| 0 <= k < |ps| && ps[k].ident == r[i][j];
      assert !HasText(hasText, ps[k].ident);
    }
  }

  /** `Gui.__getattr__`: an alias is replaced by its name, once; the name is then looked up. */
  function GetAttr(s: State, name: string): (r: Result<Ident, Error>)
    ensures r.Failure? ==> r.error == AttributeError
    ensures name !in s.aliases ==>
      (r.Success? <==> name in s.widgets) && (r.Success? ==> r.value == s.widgets[name])
    ensures name in s.aliases ==>
      (r.Success? <==> s.aliases[name] in s.widgets) && (r.Success? ==> r.value == s.widgets[s.aliases[name]])
  {
    var target := if name in s.aliases then s.aliases[name] else name;
    if target in s.widgets then Success(s.widgets[target]) else Failure(AttributeError)
  }

  /**
   * Every widget of the table is returned by `__getattr__` for some name.
   * Python calls `__getattr__` only when ordinary attribute lookup fails.
   */
  lemma EveryWidgetReachable(lists: seq<Arg<Cell>>, textOf: nat -> string, hasText: nat -> bool, isAlnum: char -> bool, s: State, i: nat, j: nat)
    returns (name: string)
    requires Built(lists, textOf, hasText, isAlnum, s)
    requires InGrid(Table(lists), i, j)
    ensures GetAttr(s, name) == Success(Resolved(Table(lists))[i][j])
  {
    var r := Resolved(Table(lists));
    EveryWidgetPlaced(r, s.placements);
    assert InGrid(r, i, j);
    assert r[i][j] in Idents(s.placements);
    var k :| 0 <= k < |s.placements| && s.placements[k].ident == r[i][j];
    name := RegisterAllFinds(map[], PlacedWidgets(s.placements), x => DefaultName(textOf, isAlnum, x), k);
  }

  /** In the constructed object, two different names never give the same widget. */
  lemma NamesAreUnique(lists: seq<Arg<Cell>>, textOf: nat -> string, hasText: nat -> bool, isAlnum: char -> bool, s: State, a: string, b: string)
    requires Built(lists, textOf, hasText, isAlnum, s)
    requires a != b && GetAttr(s, a).Success? && GetAttr(s, b).Success?
    ensures GetAttr(s, a).value != GetAttr(s, b).value
  {
  }

  /** An alias is followed one step only: an alias of an alias is not followed further. */
  lemma AliasOneLevel(s: State, a: string, b: string)
    requires a in s.aliases && s.aliases[a] == b && b in s.aliases && b in s.widgets
    ensures GetAttr(s, a) == Success(s.widgets[b])
  {
  }
}
