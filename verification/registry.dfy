/**
 * The widget registry `_widgets`: every placed widget is stored under its
 * normalized text, extended with `_` until the key is not yet taken.
 */
module Registry {

  /** A string of `n` underscores. */
  function Underscores(n: nat): string {
    seq(n, _ => '_')
  }

  lemma UnderscoresStep(text: string, m: nat)
    ensures (text + "_") + Underscores(m) == text + Underscores(m + 1)
  {
    assert Underscores(m + 1) == "_" + Underscores(m);
  }

  /** An upper bound on the length of the keys, used only to show that renaming stops. */
  ghost function MaxLength(keys: set<string>): (m: nat)
    ensures forall k :: k in keys ==> |k| <= m
  {
    if keys == {} then 0
    else
      var k :| k in keys;
      var rest := MaxLength(keys - {k});
      if |k| > rest then |k| else rest
  }

  /**
   * The renaming loop: the key is `text` followed by the fewest `_` that
   * make it a key not yet in the registry.
   */
  function FreshName<V>(widgets: map<string, V>, text: string): (name: string)
    ensures name !in widgets
    ensures |name| >= |text| && name == text + Underscores(|name| - |text|)
    ensures forall m :: 0 <= m < |name| - |text| ==> text + Underscores(m) in widgets
    decreases MaxLength(widgets.Keys) - |text| + 1
  {
    if text in widgets then
      var name := FreshName(widgets, text + "_");
      assert forall m :: 0 <= m < |name| - |text| ==> text + Underscores(m) in widgets by {
        forall m | 0 <= m < |name| - |text|
          ensures text + Underscores(m) in widgets
        {
          if m == 0 {
            assert text + Underscores(0) == text;
          } else {
            UnderscoresStep(text, m - 1);
          }
        }
      }
      UnderscoresStep(text, |name| - |text| - 1);
      name
    else
      assert text == text + Underscores(0);
      text
  }

  /**
   * One registration: exactly one new key, the fresh name, now maps to `w`,
   * and every entry already present is unchanged.
   */
  function Register<V>(widgets: map<string, V>, text: string, w: V): (r: map<string, V>)
    ensures FreshName(widgets, text) in r && r[FreshName(widgets, text)] == w
    ensures r.Keys == widgets.Keys + {FreshName(widgets, text)}
    ensures |r| == |widgets| + 1
    ensures forall k :: k in widgets ==> r[k] == widgets[k]
  {
    widgets[FreshName(widgets, text) := w]
  }

  /** Registers `items` in order, each under the text `nameOf` gives it. */
  function RegisterAll<V(==)>(widgets: map<string, V>, items: seq<V>, nameOf: V -> string): (r: map<string, V>)
    ensures |r| == |widgets| + |items|
    ensures forall k :: k in widgets ==> k in r && r[k] == widgets[k]
    decreases |items|
  {
    if |items| == 0 then widgets
    else
      var last := items[|items| - 1];
      Register(RegisterAll(widgets, items[..|items| - 1], nameOf), nameOf(last), last)
  }

  /** Every value is stored under exactly one key. */
  ghost predicate Injective<K, V>(m: map<K, V>) {
    forall a, b :: a in m && b in m && a != b ==> m[a] != m[b]
  }

  /** Every key the registrations add holds one of the registered items. */
  lemma {:induction false} RegisterAllNew<V>(widgets: map<string, V>, items: seq<V>, nameOf: V -> string)
    ensures var r := RegisterAll(widgets, items, nameOf);
      forall k :: k in r && k !in widgets ==> r[k] in items
    decreases |items|
  {
    if |items| > 0 {
      var init := items[..|items| - 1];
      RegisterAllNew(widgets, init, nameOf);
      var before := RegisterAll(widgets, init, nameOf);
      var r := RegisterAll(widgets, items, nameOf);
      forall k | k in r && k !in widgets
        ensures r[k] in items
      {
        if k in before {
          assert r[k] == before[k];
          assert before[k] in init;
          var n :| 0 <= n < |init| && init[n] == before[k];
          assert items[n] == init[n];
        } else {
          assert r[k] == items[|items| - 1];
        }
      }
    }
  }

  /** Every registered item can be found under some key of the registry. */
  lemma {:induction false} RegisterAllFinds<V>(widgets: map<string, V>, items: seq<V>, nameOf: V -> string, n: nat)
    returns (key: string)
    requires n < |items|
    ensures key in RegisterAll(widgets, items, nameOf) && RegisterAll(widgets, items, nameOf)[key] == items[n]
    decreases |items|
  {
    var init := items[..|items| - 1];
    var before := RegisterAll(widgets, init, nameOf);
    if n == |items| - 1 {
      key := FreshName(before, nameOf(items[n]));
    } else {
      key := RegisterAllFinds(widgets, init, nameOf, n);
      assert init[n] == items[n];
    }
  }

  /**
   * Registering distinct new items keeps the registry injective: every
   * widget can be found under exactly one name.
   */
  lemma {:induction false} RegisterAllInjective<V>(widgets: map<string, V>, items: seq<V>, nameOf: V -> string)
    requires Injective(widgets)
    requires forall n, l :: 0 <= n < l < |items| ==> items[n] != items[l]
    requires forall n, k :: 0 <= n < |items| && k in widgets ==> widgets[k] != items[n]
    ensures Injective(RegisterAll(widgets, items, nameOf))
    decreases |items|
  {
    if |items| > 0 {
      var init := items[..|items| - 1];
      var last := items[|items| - 1];
      assert forall n :: 0 <= n < |init| ==> init[n] == items[n];
      RegisterAllInjective(widgets, init, nameOf);
      RegisterAllNew(widgets, init, nameOf);
      var before := RegisterAll(widgets, init, nameOf);
      forall k | k in before
        ensures before[k] != last
      {
        if k !in widgets {
          var n :| 0 <= n < |init| && init[n] == before[k];
          assert items[n] != items[|items| - 1];
        }
      }
      InjectiveInsert(before, FreshName(before, nameOf(last)), last);
    }
  }

  lemma InjectiveInsert<K, V>(m: map<K, V>, key: K, v: V)
    requires Injective(m) && key !in m
    requires forall k :: k in m ==> m[k] != v
    ensures Injective(m[key := v])
  {
  }
}
