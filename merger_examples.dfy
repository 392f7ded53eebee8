/**
  Merges from the test suite, worked through the model: the keyed merger
  whose items are keyed by their "id" entry, and the default merger.
 */
module MergerExamples {
  import opened Wrappers
  import opened Tree
  import opened Merger
  import opened MergerLaws
  import Assoc

  function S(s: string): Node { Leaf(Str(s)) }

  /** The suite's key function, `d["id"]` (a dict without one never passes the condition). */
  function IdKey(idx: nat, d: Node): Node {
    if d.Dict? then Assoc.GetOr(d.entries, "id", Leaf(Null)) else Leaf(Null)
  }
  /** The suite's condition, `"id" in d`. */
  predicate HasId(d: Node) { d.Dict? && "id" in Assoc.Keys(d.entries) }

  function IdMerger(): DeepMerger {
    DeepMerger([MergeListsOfDictsByKey(IdKey, HasId)])
  }

  /** The two items with id 1 merge key by key: the shared id stays, b's new key is appended. */
  lemma {:induction false} InnerStep()
    ensures Merge(IdMerger(), [("id", Leaf(Int(1))), ("a", S("i"))], [("id", Leaf(Int(1))), ("b", S("ii"))])
      == Success([("id", Leaf(Int(1))), ("a", S("i")), ("b", S("ii"))])
  {
    InnerSharedKey();
    InnerNewKey();
  }

  /** The shared "id" keeps its value. */
  lemma {:induction false} InnerSharedKey()
    ensures var a := [("id", Leaf(Int(1))), ("a", S("i"))];
      MergeFrom(IdMerger(), a, [("id", Leaf(Int(1))), ("b", S("ii"))], 0)
      == MergeFrom(IdMerger(), a, [("id", Leaf(Int(1))), ("b", S("ii"))], 1)
  {
    var m := IdMerger();
    var a := [("id", Leaf(Int(1))), ("a", S("i"))];
    ScalarsOverride(m, Leaf(Int(1)), Leaf(Int(1)));
    assert Assoc.GetOr(a, "id", Leaf(Null)) == Leaf(Int(1));
    assert Assoc.Set(a, "id", Leaf(Int(1))) == a;
  }

  /** b's new key "b" is appended. */
  lemma {:induction false} InnerNewKey()
    ensures MergeFrom(IdMerger(), [("id", Leaf(Int(1))), ("a", S("i"))], [("id", Leaf(Int(1))), ("b", S("ii"))], 1)
      == Success([("id", Leaf(Int(1))), ("a", S("i")), ("b", S("ii"))])
  {
    var m := IdMerger();
    var a := [("id", Leaf(Int(1))), ("a", S("i"))];
    var b := [("id", Leaf(Int(1))), ("b", S("ii"))];
    ScalarsOverride(m, Leaf(Null), S("ii"));
    assert Assoc.GetOr(a, "b", Leaf(Null)) == Leaf(Null);
    var c := [("id", Leaf(Int(1))), ("a", S("i")), ("b", S("ii"))];
    assert Assoc.Set(a, "b", S("ii")) == c;
    assert MergeFrom(m, a, b, 1) == MergeFrom(m, c, b, 2);
  }

  function X(): Node { Dict([("id", Leaf(Int(1))), ("a", S("i"))]) }
  function Y(): Node { Dict([("id", Leaf(Int(1))), ("b", S("ii"))]) }
  function XY(): seq<(string, Node)> { [("id", Leaf(Int(1))), ("a", S("i")), ("b", S("ii"))] }

  lemma {:induction false} IdTestPasses()
    ensures Test(IdMerger().strategies[0], List([X()]), List([Y()])) == Success(true)
  {
    assert [X()] + [Y()] == [X(), Y()];
    assert HasId(X()) && HasId(Y());
  }

  lemma {:induction false} IdTable()
    ensures InitialTable(IdKey, [X()]) == [(Leaf(Int(1)), X())]
  {
    assert IdKey(0, X()) == Leaf(Int(1));
    assert TableFrom(IdKey, [X()], [], 0) == TableFrom(IdKey, [X()], [(Leaf(Int(1)), X())], 1);
  }

  lemma {:induction false} IdSlotMerge()
    ensures KeyedFrom(IdMerger(), IdKey, [(Leaf(Int(1)), X())], List([Y()]), 0) == Success([(Leaf(Int(1)), Dict(XY()))])
  {
    InnerStep();
    assert Merge(IdMerger(), X().entries, Y().entries) == Success(XY());
    assert IdKey(0, Y()) == Leaf(Int(1));
    assert Assoc.Lookup([(Leaf(Int(1)), X())], Leaf(Int(1))) == Some(X());
    assert Assoc.Set([(Leaf(Int(1)), X())], Leaf(Int(1)), Dict(XY())) == [(Leaf(Int(1)), Dict(XY()))];
    assert KeyedFrom(IdMerger(), IdKey, [(Leaf(Int(1)), X())], List([Y()]), 0)
      == KeyedFrom(IdMerger(), IdKey, [(Leaf(Int(1)), Dict(XY()))], List([Y()]), 1);
  }

  lemma {:induction false} OuterStep()
    ensures MergeValues(IdMerger(), List([X()]), List([Y()])) == Success(List([Dict(XY())]))
  {
    var m := IdMerger();
    IdTestPasses();
    FirstApplicableStrategyWins(m, List([X()]), List([Y()]), 0);
    IdTable();
    IdSlotMerge();
    assert Assoc.Values([(Leaf(Int(1)), Dict(XY()))]) == [Dict(XY())];
  }

  /** Test `test_merge_same_id_add_key`: the item with the same id gains b's new key. */
  lemma {:induction false} SameIdAddsKey()
    ensures Merge(IdMerger(), [("1", List([X()]))], [("1", List([Y()]))]) == Success([("1", List([Dict(XY())]))])
  {
    var m := IdMerger();
    OuterStep();
    var a := [("1", List([X()]))];
    var b := [("1", List([Y()]))];
    assert Assoc.GetOr(a, "1", Leaf(Null)) == List([X()]);
    assert Assoc.Set(a, "1", List([Dict(XY())])) == [("1", List([Dict(XY())]))];
    assert MergeFrom(m, a, b, 0) == MergeFrom(m, [("1", List([Dict(XY())]))], b, 1);
  }

  /** Test `test_merge_b_override_a`: under the default merger b's scalar replaces a's. */
  lemma {:induction false} DefaultOverridesScalar()
    ensures Merge(DefaultMerger(), [("1", S("one"))], [("1", S("ONE"))]) == Success([("1", S("ONE"))])
  {
    var m := DefaultMerger();
    ScalarsOverride(m, S("one"), S("ONE"));
    assert Assoc.GetOr([("1", S("one"))], "1", Leaf(Null)) == S("one");
    assert [("1", S("one"))][1..] == [];
    assert Assoc.Set([("1", S("one"))], "1", S("ONE")) == [("1", S("ONE"))];
    assert MergeFrom(m, [("1", S("one"))], [("1", S("ONE"))], 0) == MergeFrom(m, [("1", S("ONE"))], [("1", S("ONE"))], 1);
  }

  /** Test `test_merge_nested_empty_with_value`: merging an empty nested dict keeps a's nested dict. */
  lemma {:induction false} DefaultKeepsNestedDict()
    ensures Merge(DefaultMerger(), [("2", Dict([("a", S("A"))]))], [("2", Dict([]))]) == Success([("2", Dict([("a", S("A"))]))])
  {
    var m := DefaultMerger();
    var inner := Dict([("a", S("A"))]);
    DefaultMergerRule(inner, Dict([]));
    assert Merge(m, inner.entries, []) == Success(inner.entries);
    assert Assoc.GetOr([("2", inner)], "2", Leaf(Null)) == inner;
    assert MergeValues(m, inner, Dict([])) == Success(inner);
    assert [("2", inner)][1..] == [];
    assert Assoc.Set([("2", inner)], "2", inner) == [("2", inner)];
    assert MergeFrom(m, [("2", inner)], [("2", Dict([]))], 0) == MergeFrom(m, [("2", inner)], [("2", Dict([]))], 1);
  }
}
