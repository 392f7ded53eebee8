/**
  What the deep merger promises: the key order of the result, what each key
  ends up holding, which strategy decides a pair of values, and when the
  merge can raise at all.
 */
module MergerLaws {
  import opened Wrappers
  import opened Tree
  import opened Merger
  import Assoc

  /**
    The only error that can escape a merge is the abstract `Strategy.test`'s,
    and only from a merger that lists the abstract strategy.  (`Strategy.__call__`
    is never reached: a strategy is only called after its test passed.)
   */
  ghost predicate OnlyTestRaises<T>(m: DeepMerger, r: Result<T, MergeError>) {
    r.Success? || (Base in m.strategies && r.error == NotImplementedError(TestMessage))
  }

  lemma {:induction false} MergeOk(m: DeepMerger, a: seq<(string, Node)>, b: seq<(string, Node)>)
    ensures OnlyTestRaises(m, Merge(m, a, b))
    decreases Size(Dict(b)), 0, |b| + 1
  {
    MergeFromOk(m, a, b, 0);
  }

  lemma {:induction false} MergeFromOk(m: DeepMerger, acc: seq<(string, Node)>, b: seq<(string, Node)>, i: nat)
    requires i <= |b|
    ensures OnlyTestRaises(m, MergeFrom(m, acc, b, i))
    decreases Size(Dict(b)), 0, |b| - i
  {
    if i < |b| {
      EntrySmaller(Dict(b), i);
      var (k, v) := b[i];
      StrategyLoopOk(m, 0, Assoc.GetOr(acc, k, Leaf(Null)), v);
      var r := MergeValues(m, Assoc.GetOr(acc, k, Leaf(Null)), v);
      if r.Success? {
        MergeFromOk(m, Assoc.Set(acc, k, r.value), b, i + 1);
      }
    }
  }

  lemma {:induction false} StrategyLoopOk(m: DeepMerger, i: nat, a: Node, b: Node)
    requires i <= |m.strategies|
    ensures OnlyTestRaises(m, StrategyLoop(m, i, a, b))
    decreases Size(b), 2, |m.strategies| - i
  {
    if i < |m.strategies| {
      var t := Test(m.strategies[i], a, b);
      if t == Success(true) {
        ApplyOk(m, m.strategies[i], a, b);
      } else if t == Success(false) {
        StrategyLoopOk(m, i + 1, a, b);
      } else {
        assert m.strategies[i] == Base;
      }
    }
  }

  lemma {:induction false} ApplyOk(m: DeepMerger, s: Strategy, a: Node, b: Node)
    requires Test(s, a, b) == Success(true)
    ensures OnlyTestRaises(m, Apply(m, s, a, b))
    decreases Size(b), 1, 0
  {
    match s
    case MergeDicts =>
      MergeOk(m, a.entries, b.entries);
    case CombineLists =>
    case MergeListOfDictsByPosition =>
      AllDictsSplit(a.items, b.items);
      PositionFromOk(m, ZipLongest(a.items, b.items), b, 0);
    case MergeListsOfDictsByKey(key, _) =>
      AllDictsSplit(a.items, b.items);
      KeyedFromOk(m, key, InitialTable(key, a.items), b, 0);
  }

  lemma {:induction false} PositionFromOk(m: DeepMerger, pairs: seq<(Node, Node)>, b: Node, k: nat)
    requires b.List? && k <= |pairs|
    requires forall i :: 0 <= i < |pairs| ==> pairs[i].0.Dict? && pairs[i].1.Dict?
    requires forall i :: 0 <= i < |pairs| ==> pairs[i].1 == Dict([]) || (i < |b.items| && pairs[i].1 == b.items[i])
    ensures OnlyTestRaises(m, PositionFrom(m, pairs, b, k))
    decreases Size(b), 0, |pairs| - k
  {
    if k < |pairs| {
      FillOrItemSmaller(b, pairs[k].1, k);
      MergeOk(m, pairs[k].0.entries, pairs[k].1.entries);
      if Merge(m, pairs[k].0.entries, pairs[k].1.entries).Success? {
        PositionFromOk(m, pairs, b, k + 1);
      }
    }
  }

  lemma {:induction false} KeyedFromOk(m: DeepMerger, key: (nat, Node) -> Node, table: seq<(Node, Node)>, b: Node, k: nat)
    requires b.List? && k <= |b.items| && AllDicts(b.items)
    requires forall p :: p in table ==> p.1.Dict?
    ensures OnlyTestRaises(m, KeyedFrom(m, key, table, b, k))
    decreases Size(b), 0, |b.items| - k
  {
    if k < |b.items| {
      var itemKey := key(k, b.items[k]);
      match Assoc.Lookup(table, itemKey)
      case None =>
        Assoc.SetEntries(table, itemKey, b.items[k]);
        KeyedFromOk(m, key, Assoc.Set(table, itemKey, b.items[k]), b, k + 1);
      case Some(prev) =>
        ItemSmaller(b, k);
        MergeOk(m, prev.entries, b.items[k].entries);
        var r := Merge(m, prev.entries, b.items[k].entries);
        if r.Success? {
          Assoc.SetEntries(table, itemKey, Dict(r.value));
          KeyedFromOk(m, key, Assoc.Set(table, itemKey, Dict(r.value)), b, k + 1);
        }
    }
  }

  /** A merger built only from the concrete strategies never raises. */
  lemma {:induction false} ConcreteStrategiesNeverRaise(m: DeepMerger, a: seq<(string, Node)>, b: seq<(string, Node)>)
    requires Base !in m.strategies
    ensures Merge(m, a, b).Success?
  {
    MergeOk(m, a, b);
  }

  /** A merge that raises raises the abstract test's `NotImplementedError`, never the abstract call's. */
  lemma {:induction false} MergeRaisesOnlyFromTest(m: DeepMerger, a: seq<(string, Node)>, b: seq<(string, Node)>)
    requires Merge(m, a, b).Failure?
    ensures Base in m.strategies
    ensures Merge(m, a, b).error == NotImplementedError(TestMessage)
    ensures Merge(m, a, b).error != NotImplementedError(CallMessage)
  {
    MergeOk(m, a, b);
  }

  /** Called directly, the abstract strategy raises from both `test` and `__call__`. */
  lemma {:induction false} AbstractStrategyRaises(m: DeepMerger, a: Node, b: Node)
    ensures Test(Base, a, b) == Failure(NotImplementedError(TestMessage))
    ensures Apply(m, Base, a, b) == Failure(NotImplementedError(CallMessage))
  {
  }

  // ---- Key order and contents of `DeepMerger.__call__` ----

  lemma {:induction false} MergeFromKeys(m: DeepMerger, acc: seq<(string, Node)>, b: seq<(string, Node)>, i: nat)
    requires i <= |b| && MergeFrom(m, acc, b, i).Success?
    ensures Assoc.Keys(MergeFrom(m, acc, b, i).value) == Assoc.AddKeys(Assoc.Keys(acc), Assoc.Keys(b)[i..])
    ensures forall k :: k !in Assoc.Keys(b)[i..] ==> Assoc.Lookup(MergeFrom(m, acc, b, i).value, k) == Assoc.Lookup(acc, k)
    decreases |b| - i
  {
    if i == |b| {
      assert Assoc.Keys(b)[i..] == [];
    } else {
      var k := b[i].0;
      var next := MergeFromUnfold(m, acc, b, i);
      MergeFromKeys(m, next, b, i + 1);
      var ks := Assoc.Keys(b)[i..];
      SliceCons(Assoc.Keys(b), i);
      assert ks == [k] + Assoc.Keys(b)[i + 1..];
      assert Assoc.AddKeys(Assoc.Keys(acc), ks) == Assoc.AddKeys(Assoc.Keys(next), Assoc.Keys(b)[i + 1..]);
    }
  }

  /** One step of the loop of `DeepMerger.__call__`: the i-th key of b is set to its merged value. */
  lemma {:induction false} MergeFromUnfold(m: DeepMerger, acc: seq<(string, Node)>, b: seq<(string, Node)>, i: nat)
      returns (next: seq<(string, Node)>)
    requires i < |b| && MergeFrom(m, acc, b, i).Success?
    ensures MergeValues(m, Assoc.GetOr(acc, b[i].0, Leaf(Null)), b[i].1).Success?
    ensures next == Assoc.Set(acc, b[i].0, MergeValues(m, Assoc.GetOr(acc, b[i].0, Leaf(Null)), b[i].1).value)
    ensures MergeFrom(m, acc, b, i) == MergeFrom(m, next, b, i + 1)
  {
    next := Assoc.Set(acc, b[i].0, MergeValues(m, Assoc.GetOr(acc, b[i].0, Leaf(Null)), b[i].1).value);
  }

  lemma {:induction false} SliceCons<T>(s: seq<T>, i: nat)
    requires i < |s|
    ensures s[i..] == [s[i]] + s[i + 1..]
  {
  }

  /**
    `DeepMerger.__call__` keeps a's keys in a's order and appends b's new keys
    in b's order; a key b does not have keeps a's value.
   */
  lemma {:induction false} MergeKeyOrder(m: DeepMerger, a: seq<(string, Node)>, b: seq<(string, Node)>)
    requires Merge(m, a, b).Success?
    ensures Assoc.Keys(Merge(m, a, b).value) == Assoc.AddKeys(Assoc.Keys(a), Assoc.Keys(b))
    ensures forall k :: k !in Assoc.Keys(b) ==> Assoc.Lookup(Merge(m, a, b).value, k) == Assoc.Lookup(a, k)
  {
    MergeFromKeys(m, a, b, 0);
    assert Assoc.Keys(b)[0..] == Assoc.Keys(b);
  }

  lemma {:induction false} MergeFromValues(m: DeepMerger, acc: seq<(string, Node)>, b: seq<(string, Node)>, i: nat, j: nat)
    requires i <= j < |b| && Assoc.NoDup(Assoc.Keys(b)) && MergeFrom(m, acc, b, i).Success?
    ensures MergeValues(m, Assoc.GetOr(acc, b[j].0, Leaf(Null)), b[j].1)
      == Success(Assoc.GetOr(MergeFrom(m, acc, b, i).value, b[j].0, Leaf(Null)))
    decreases |b| - i
  {
    var (k, v) := b[i];
    var merged := MergeValues(m, Assoc.GetOr(acc, k, Leaf(Null)), v).value;
    var next := Assoc.Set(acc, k, merged);
    assert MergeFrom(m, acc, b, i) == MergeFrom(m, next, b, i + 1);
    if j == i {
      MergeFromKeys(m, next, b, i + 1);
      assert k !in Assoc.Keys(b)[i + 1..] by {
        forall l | i + 1 <= l < |b| ensures Assoc.Keys(b)[l] != k {
          assert Assoc.Keys(b)[i] == k;
        }
      }
    } else {
      MergeFromValues(m, next, b, i + 1, j);
      assert b[j].0 != k by { assert Assoc.Keys(b)[i] != Assoc.Keys(b)[j]; }
    }
  }

  /**
    Each of b's keys ends up holding `merge_values(a.get(key), b[key])`
    (a dict's keys are distinct).
   */
  lemma {:induction false} MergeValueAt(m: DeepMerger, a: seq<(string, Node)>, b: seq<(string, Node)>, j: nat)
    requires j < |b| && Assoc.NoDup(Assoc.Keys(b)) && Merge(m, a, b).Success?
    ensures MergeValues(m, Assoc.GetOr(a, b[j].0, Leaf(Null)), b[j].1)
      == Success(Assoc.GetOr(Merge(m, a, b).value, b[j].0, Leaf(Null)))
  {
    MergeFromValues(m, a, b, 0, j);
  }

  // ---- Strategy selection in `merge_values` ----

  lemma {:induction false} SkipInapplicable(m: DeepMerger, a: Node, b: Node, i: nat, j: nat)
    requires i <= j <= |m.strategies|
    requires forall l :: i <= l < j ==> Test(m.strategies[l], a, b) == Success(false)
    ensures StrategyLoop(m, i, a, b) == StrategyLoop(m, j, a, b)
    decreases j - i
  {
    if i < j {
      SkipInapplicable(m, a, b, i + 1, j);
    }
  }

  /**
    `merge_values` asks the strategies in order: the first whose test passes
    does the merge, a raising test raises, and when no test passes b's value is returned.
   */
  lemma {:induction false} FirstApplicableStrategyWins(m: DeepMerger, a: Node, b: Node, i: nat)
    requires i <= |m.strategies|
    requires forall l :: 0 <= l < i ==> Test(m.strategies[l], a, b) == Success(false)
    ensures i == |m.strategies| ==> MergeValues(m, a, b) == Success(b)
    ensures i < |m.strategies| && Test(m.strategies[i], a, b) == Success(true) ==>
      MergeValues(m, a, b) == Apply(m, m.strategies[i], a, b)
    ensures i < |m.strategies| && m.strategies[i] == Base ==>
      MergeValues(m, a, b) == Failure(NotImplementedError(TestMessage))
  {
    SkipInapplicable(m, a, b, 0, i);
  }

  /** A scalar on either side: no concrete strategy applies, and b's value wins. */
  lemma {:induction false} ScalarsOverride(m: DeepMerger, a: Node, b: Node)
    requires Base !in m.strategies && (a.Leaf? || b.Leaf?)
    ensures MergeValues(m, a, b) == Success(b)
  {
    forall l | 0 <= l < |m.strategies| ensures Test(m.strategies[l], a, b) == Success(false) {
      assert m.strategies[l] in m.strategies;
    }
    FirstApplicableStrategyWins(m, a, b, |m.strategies|);
  }

  /** The default merger merges two dicts recursively and otherwise lets b's value win; it never raises. */
  lemma {:induction false} DefaultMergerRule(a: Node, b: Node)
    ensures a.Dict? && b.Dict? ==> (Merge(DefaultMerger(), a.entries, b.entries).Success? &&
      MergeValues(DefaultMerger(), a, b) == Success(Dict(Merge(DefaultMerger(), a.entries, b.entries).value)))
    ensures !(a.Dict? && b.Dict?) ==> MergeValues(DefaultMerger(), a, b) == Success(b)
  {
    var m := DefaultMerger();
    FirstApplicableStrategyWins(m, a, b, 0);
    if a.Dict? && b.Dict? {
      ConcreteStrategiesNeverRaise(m, a.entries, b.entries);
    } else {
      FirstApplicableStrategyWins(m, a, b, 1);
    }
  }

  // ---- The list strategies ----

  /** `CombineLists` concatenates a and b whenever both are lists. */
  lemma {:induction false} CombineListsRule(m: DeepMerger, x: seq<Node>, y: seq<Node>)
    ensures Test(CombineLists, List(x), List(y)) == Success(true)
    ensures Apply(m, CombineLists, List(x), List(y)) == Success(List(x + y))
    ensures MergeValues(DeepMerger([CombineLists]), List(x), List(y)) == Success(List(x + y))
  {
    FirstApplicableStrategyWins(DeepMerger([CombineLists]), List(x), List(y), 0);
  }

  /** A tuple is not a list: no list strategy applies to it. */
  lemma {:induction false} TuplesAreNotLists(s: Strategy, x: seq<Node>, y: Node)
    requires !s.Base? && !s.MergeDicts?
    ensures Test(s, Tuple(x), y) == Success(false)
    ensures Test(s, y, Tuple(x)) == Success(false)
  {
  }

  lemma {:induction false} PositionFromShape(m: DeepMerger, pairs: seq<(Node, Node)>, b: Node, k: nat)
    requires b.List? && k <= |pairs|
    requires forall i :: 0 <= i < |pairs| ==> pairs[i].0.Dict? && pairs[i].1.Dict?
    requires forall i :: 0 <= i < |pairs| ==> pairs[i].1 == Dict([]) || (i < |b.items| && pairs[i].1 == b.items[i])
    requires PositionFrom(m, pairs, b, k).Success?
    ensures |PositionFrom(m, pairs, b, k).value| == |pairs| - k
    ensures forall i :: k <= i < |pairs| ==> (Merge(m, pairs[i].0.entries, pairs[i].1.entries).Success?
      && PositionFrom(m, pairs, b, k).value[i - k] == Dict(Merge(m, pairs[i].0.entries, pairs[i].1.entries).value))
    decreases |pairs| - k
  {
    if k < |pairs| {
      PositionFromShape(m, pairs, b, k + 1);
    }
  }

  /**
    `MergeListOfDictsByPosition` on two lists of dicts: the result is as long as
    the longer list, and item i merges `a[i]` with `b[i]`, a missing side read as `{}`.
   */
  lemma {:induction false} PositionRule(m: DeepMerger, x: seq<Node>, y: seq<Node>)
    requires AllDicts(x) && AllDicts(y) && Base !in m.strategies
    ensures Test(MergeListOfDictsByPosition, List(x), List(y)) == Success(true)
    ensures var r := Apply(m, MergeListOfDictsByPosition, List(x), List(y));
      r.Success? && r.value.List? && |r.value.items| == (if |x| >= |y| then |x| else |y|)
      && forall i :: 0 <= i < |r.value.items| ==>
        var ai := if i < |x| then x[i] else Dict([]);
        var bi := if i < |y| then y[i] else Dict([]);
        Merge(m, ai.entries, bi.entries).Success? && r.value.items[i] == Dict(Merge(m, ai.entries, bi.entries).value)
  {
    AllDictsSplit(x, y);
    assert List(x).items + List(y).items == x + y;
    var pairs := ZipLongest(x, y);
    ApplyOk(m, MergeListOfDictsByPosition, List(x), List(y));
    var r := Apply(m, MergeListOfDictsByPosition, List(x), List(y));
    assert PositionFrom(m, pairs, List(y), 0).Success? && r == Success(List(PositionFrom(m, pairs, List(y), 0).value));
    PositionFromShape(m, pairs, List(y), 0);
    PositionItems(m, x, y, PositionFrom(m, pairs, List(y), 0).value);
  }

  /** The items merged pair by pair from `zip_longest(x, y, fillvalue={})`, read back in terms of x and y. */
  lemma {:induction false} PositionItems(m: DeepMerger, x: seq<Node>, y: seq<Node>, xs: seq<Node>)
    requires AllDicts(x) && AllDicts(y)
    requires |xs| == |ZipLongest(x, y)|
    requires forall i :: 0 <= i < |xs| ==> var p := ZipLongest(x, y)[i];
      Merge(m, p.0.entries, p.1.entries).Success? && xs[i] == Dict(Merge(m, p.0.entries, p.1.entries).value)
    ensures |xs| == (if |x| >= |y| then |x| else |y|)
    ensures forall i :: 0 <= i < |xs| ==>
        var ai := if i < |x| then x[i] else Dict([]);
        var bi := if i < |y| then y[i] else Dict([]);
        Merge(m, ai.entries, bi.entries).Success? && xs[i] == Dict(Merge(m, ai.entries, bi.entries).value)
  {
    var pairs := ZipLongest(x, y);
    forall i | 0 <= i < |xs|
      ensures var ai := if i < |x| then x[i] else Dict([]);
        var bi := if i < |y| then y[i] else Dict([]);
        Merge(m, ai.entries, bi.entries).Success? && xs[i] == Dict(Merge(m, ai.entries, bi.entries).value)
    {
      assert pairs[i] == (if i < |x| then x[i] else Dict([]), if i < |y| then y[i] else Dict([]));
    }
  }

  lemma {:induction false} KeyedFromKeys(m: DeepMerger, key: (nat, Node) -> Node, table: seq<(Node, Node)>, b: Node, k: nat)
    requires b.List? && k <= |b.items| && AllDicts(b.items)
    requires forall p :: p in table ==> p.1.Dict?
    requires KeyedFrom(m, key, table, b, k).Success?
    ensures Assoc.Keys(KeyedFrom(m, key, table, b, k).value) == Assoc.AddKeys(Assoc.Keys(table), KeyList(key, b.items, k))
    decreases |b.items| - k
  {
    if k < |b.items| {
      var itemKey := key(k, b.items[k]);
      match Assoc.Lookup(table, itemKey)
      case None =>
        Assoc.SetEntries(table, itemKey, b.items[k]);
        KeyedFromKeys(m, key, Assoc.Set(table, itemKey, b.items[k]), b, k + 1);
      case Some(prev) =>
        var es := Merge(m, prev.entries, b.items[k].entries).value;
        Assoc.SetEntries(table, itemKey, Dict(es));
        KeyedFromKeys(m, key, Assoc.Set(table, itemKey, Dict(es)), b, k + 1);
    }
  }

  /**
    `MergeListsOfDictsByKey` keeps one slot per distinct key: a's keys in
    first-seen order, then b's new keys in b's order (both lists enumerated
    from 0), and returns the slots' values in that order.
   */
  lemma {:induction false} KeyedRule(m: DeepMerger, key: (nat, Node) -> Node, condition: Node -> bool, x: seq<Node>, y: seq<Node>)
    requires AllDicts(x) && AllDicts(y)
    requires KeyedFrom(m, key, InitialTable(key, x), List(y), 0).Success?
    ensures Assoc.Keys(KeyedFrom(m, key, InitialTable(key, x), List(y), 0).value)
      == Assoc.AddKeys([], KeyList(key, x, 0) + KeyList(key, y, 0))
    ensures Apply(m, MergeListsOfDictsByKey(key, condition), List(x), List(y))
      == Success(List(Assoc.Values(KeyedFrom(m, key, InitialTable(key, x), List(y), 0).value)))
  {
    AllDictsSplit(x, y);
    var t0 := InitialTable(key, x);
    var r := KeyedFrom(m, key, t0, List(y), 0);
    assert List(x).items + List(y).items == x + y;
    assert Apply(m, MergeListsOfDictsByKey(key, condition), List(x), List(y)) == Success(List(Assoc.Values(r.value)));
    KeyedFromKeys(m, key, t0, List(y), 0);
    Assoc.AddKeysAppend([], KeyList(key, x, 0), KeyList(key, y, 0));
  }

  /** An item of b whose key is new in `temp_dict` gets a new last slot holding the item as is. */
  lemma {:induction false} KeyedNewKeyRule(m: DeepMerger, key: (nat, Node) -> Node, table: seq<(Node, Node)>, b: Node, k: nat)
    requires b.List? && k < |b.items| && AllDicts(b.items)
    requires forall p :: p in table ==> p.1.Dict?
    requires key(k, b.items[k]) !in Assoc.Keys(table)
    ensures exists next: seq<(Node, Node)> ::
      (Assoc.Keys(next) == Assoc.Keys(table) + [key(k, b.items[k])]
       && Assoc.Lookup(next, key(k, b.items[k])) == Some(b.items[k])
       && (forall other :: other != key(k, b.items[k]) ==> Assoc.Lookup(next, other) == Assoc.Lookup(table, other))
       && (forall p :: p in next ==> p.1.Dict?)
       && KeyedFrom(m, key, table, b, k) == KeyedFrom(m, key, next, b, k + 1))
  {
    var itemKey := key(k, b.items[k]);
    var next := Assoc.Set(table, itemKey, b.items[k]);
    Assoc.SetEntries(table, itemKey, b.items[k]);
    assert Assoc.Lookup(table, itemKey) == None;
    assert Assoc.Keys(next) == Assoc.Keys(table) + [itemKey];
    assert Assoc.Lookup(next, itemKey) == Some(b.items[k]);
    assert forall other :: other != itemKey ==> Assoc.Lookup(next, other) == Assoc.Lookup(table, other);
    assert forall p :: p in next ==> p.1.Dict?;
    assert KeyedFrom(m, key, table, b, k) == KeyedFrom(m, key, next, b, k + 1);
  }

  /**
    An item of b whose key already has a slot is merged into that slot, which
    keeps its place; every other slot is untouched.  A failing merge fails the whole call.
   */
  lemma {:induction false} KeyedTakenKeyRule(m: DeepMerger, key: (nat, Node) -> Node, table: seq<(Node, Node)>, b: Node, k: nat, prev: Node)
    requires b.List? && k < |b.items| && AllDicts(b.items)
    requires forall p :: p in table ==> p.1.Dict?
    requires Assoc.Lookup(table, key(k, b.items[k])) == Some(prev)
    ensures Merge(m, prev.entries, b.items[k].entries).Failure? ==>
      KeyedFrom(m, key, table, b, k) == Failure(Merge(m, prev.entries, b.items[k].entries).error)
    ensures Merge(m, prev.entries, b.items[k].entries).Success? ==> exists next: seq<(Node, Node)> ::
      (Assoc.Keys(next) == Assoc.Keys(table)
       && Assoc.Lookup(next, key(k, b.items[k])) == Some(Dict(Merge(m, prev.entries, b.items[k].entries).value))
       && (forall other :: other != key(k, b.items[k]) ==> Assoc.Lookup(next, other) == Assoc.Lookup(table, other))
       && (forall p :: p in next ==> p.1.Dict?)
       && KeyedFrom(m, key, table, b, k) == KeyedFrom(m, key, next, b, k + 1))
  {
    var itemKey := key(k, b.items[k]);
    var merged := Merge(m, prev.entries, b.items[k].entries);
    assert itemKey in Assoc.Keys(table);
    if merged.Success? {
      var next := Assoc.Set(table, itemKey, Dict(merged.value));
      Assoc.SetEntries(table, itemKey, Dict(merged.value));
      assert Assoc.Keys(next) == Assoc.Keys(table);
      assert Assoc.Lookup(next, itemKey) == Some(Dict(merged.value));
      assert forall other :: other != itemKey ==> Assoc.Lookup(next, other) == Assoc.Lookup(table, other);
      assert forall p :: p in next ==> p.1.Dict?;
      assert KeyedFrom(m, key, table, b, k) == KeyedFrom(m, key, next, b, k + 1);
    }
  }

  /**
    With only the concrete strategies, a key that only b has gets b's value:
    it meets `None` from a, and no strategy applies to `None`.
   */
  lemma {:induction false} NewKeysTakeBValue(m: DeepMerger, a: seq<(string, Node)>, b: seq<(string, Node)>, j: nat)
    requires Base !in m.strategies && j < |b| && Assoc.NoDup(Assoc.Keys(b)) && b[j].0 !in Assoc.Keys(a)
    ensures Merge(m, a, b).Success?
    ensures Assoc.Lookup(Merge(m, a, b).value, b[j].0) == Some(b[j].1)
  {
    ConcreteStrategiesNeverRaise(m, a, b);
    MergeValueAt(m, a, b, j);
    ScalarsOverride(m, Leaf(Null), b[j].1);
    MergeKeyOrder(m, a, b);
    assert b[j].0 in Assoc.Keys(b) by { assert Assoc.Keys(b)[j] == b[j].0; }
    Assoc.AddKeysKeepsPrefix(Assoc.Keys(a), Assoc.Keys(b));
  }
}
