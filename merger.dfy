/**
  The deep merger: merges dict `b` into dict `a` key by key, asking an
  ordered list of strategies how to combine two values that meet under the
  same key.  `b`'s value wins where no strategy applies.
 */
module Merger {
  import opened Wrappers
  import opened Tree
  import Assoc

  /**
    The strategies.  `Base` is the abstract `Strategy`, whose `test` and
    `__call__` raise.  `MergeListsOfDictsByKey` carries its key function
    (called with the position and the item) and its condition.
   */
  datatype Strategy =
    | Base
    | MergeListOfDictsByPosition
    | MergeListsOfDictsByKey(key: (nat, Node) -> Node, condition: Node -> bool)
    | CombineLists
    | MergeDicts

  /** A `DeepMerger` and the strategies it tries, in order. */
  datatype DeepMerger = DeepMerger(strategies: seq<Strategy>)

  /** `DeepMerger()`: only `MergeDicts`. */
  function DefaultMerger(): DeepMerger {
    DeepMerger([MergeDicts])
  }

  /** `NotImplementedError(message)`, the only error the merger itself raises. */
  datatype MergeError = NotImplementedError(message: string)

  const TestMessage := "Must implement test method."
  const CallMessage := "Must implement __call__ method."

  /** Every item of the list concatenation `a + b` is a dict (and, for the keyed strategy, passes its condition). */
  predicate AllDicts(xs: seq<Node>) {
    forall i :: 0 <= i < |xs| ==> xs[i].Dict?
  }

  lemma {:induction false} AllDictsSplit(xs: seq<Node>, ys: seq<Node>)
    ensures AllDicts(xs + ys) <==> AllDicts(xs) && AllDicts(ys)
  {
    assert forall i :: 0 <= i < |xs| ==> (xs + ys)[i] == xs[i];
    assert forall i :: 0 <= i < |ys| ==> (xs + ys)[|xs| + i] == ys[i];
  }

  /** `strategy.test(a, b)`: only lists count as lists here, never tuples. */
  function Test(s: Strategy, a: Node, b: Node): (r: Result<bool, MergeError>)
    ensures r.Failure? <==> s.Base?
    ensures r == Success(true) && !s.MergeDicts? ==> a.List? && b.List?
    ensures r == Success(true) && s.MergeDicts? ==> a.Dict? && b.Dict?
  {
    match s
    case Base => Failure(NotImplementedError(TestMessage))
    case MergeListOfDictsByPosition => Success(a.List? && b.List? && AllDicts(a.items + b.items))
    case MergeListsOfDictsByKey(_, condition) =>
      Success(a.List? && b.List? && AllDicts(a.items + b.items)
        && forall i :: 0 <= i < |a.items + b.items| ==> condition((a.items + b.items)[i]))
    case CombineLists => Success(a.List? && b.List?)
    case MergeDicts => Success(a.Dict? && b.Dict?)
  }

  /**
    The tests one by one: the positional strategy needs two lists of dicts
    only, the keyed one also every item to pass its condition, `CombineLists`
    any two lists and `MergeDicts` two dicts.
   */
  lemma {:induction false} TestRule(s: Strategy, a: Node, b: Node)
    ensures s.MergeListOfDictsByPosition? ==>
      (Test(s, a, b) == Success(true) <==> a.List? && b.List? && AllDicts(a.items + b.items))
    ensures s.MergeListsOfDictsByKey? ==>
      (Test(s, a, b) == Success(true) <==>
        a.List? && b.List? && AllDicts(a.items + b.items) && forall d :: d in a.items + b.items ==> s.condition(d))
    ensures s.CombineLists? ==> (Test(s, a, b) == Success(true) <==> a.List? && b.List?)
    ensures s.MergeDicts? ==> (Test(s, a, b) == Success(true) <==> a.Dict? && b.Dict?)
  {
    if s.MergeListsOfDictsByKey? && a.List? && b.List? {
      var xs := a.items + b.items;
      assert (forall d :: d in xs ==> s.condition(d)) <==> (forall i :: 0 <= i < |xs| ==> s.condition(xs[i]));
    }
  }

  /** `zip_longest(a, b, fillvalue={})`. */
  function ZipLongest(a: seq<Node>, b: seq<Node>): (r: seq<(Node, Node)>)
    ensures |r| == if |a| >= |b| then |a| else |b|
    ensures forall i :: 0 <= i < |r| ==> r[i] == (if i < |a| then a[i] else Dict([]), if i < |b| then b[i] else Dict([]))
  {
    var n := if |a| >= |b| then |a| else |b|;
    seq(n, i requires 0 <= i < n => (if i < |a| then a[i] else Dict([]), if i < |b| then b[i] else Dict([])))
  }

  /** `DeepMerger.__call__(a, b)`: a's entries, with each of b's keys assigned in b's order. */
  function Merge(m: DeepMerger, a: seq<(string, Node)>, b: seq<(string, Node)>): Result<seq<(string, Node)>, MergeError>
    decreases Size(Dict(b)), 0, |b| + 1
  {
    MergeFrom(m, a, b, 0)
  }

  /** The loop of `DeepMerger.__call__` from b's i-th entry on, with `acc` the result so far. */
  function MergeFrom(m: DeepMerger, acc: seq<(string, Node)>, b: seq<(string, Node)>, i: nat): Result<seq<(string, Node)>, MergeError>
    requires i <= |b|
    decreases Size(Dict(b)), 0, |b| - i
  {
    if i == |b| then Success(acc)
    else
      EntrySmaller(Dict(b), i);
      var (k, v) := b[i];
      match MergeValues(m, Assoc.GetOr(acc, k, Leaf(Null)), v)
      case Failure(e) => Failure(e)
      case Success(merged) => MergeFrom(m, Assoc.Set(acc, k, merged), b, i + 1)
  }

  /** `DeepMerger.merge_values`: the first strategy whose test passes combines the values; otherwise b's value wins. */
  function MergeValues(m: DeepMerger, a: Node, b: Node): Result<Node, MergeError>
    decreases Size(b), 3, 0
  {
    StrategyLoop(m, 0, a, b)
  }

  /** The loop over the strategies from the i-th on. */
  function StrategyLoop(m: DeepMerger, i: nat, a: Node, b: Node): Result<Node, MergeError>
    requires i <= |m.strategies|
    decreases Size(b), 2, |m.strategies| - i
  {
    if i == |m.strategies| then Success(b)
    else
      match Test(m.strategies[i], a, b)
      case Failure(e) => Failure(e)
      case Success(applies) =>
        if applies then Apply(m, m.strategies[i], a, b) else StrategyLoop(m, i + 1, a, b)
  }

  /** `strategy(a, b, merger)`, for a strategy whose test passed on a and b. */
  function Apply(m: DeepMerger, s: Strategy, a: Node, b: Node): Result<Node, MergeError>
    decreases Size(b), 1, 0
  {
    match s
    case Base => Failure(NotImplementedError(CallMessage))
    case MergeDicts =>
      if a.Dict? && b.Dict? then
        match Merge(m, a.entries, b.entries)
        case Failure(e) => Failure(e)
        case Success(es) => Success(Dict(es))
      else Success(b)
    case CombineLists =>
      if a.List? && b.List? then Success(List(a.items + b.items)) else Success(b)
    case MergeListOfDictsByPosition =>
      if a.List? && b.List? && AllDicts(a.items + b.items) then
        AllDictsSplit(a.items, b.items);
        match PositionFrom(m, ZipLongest(a.items, b.items), b, 0)
        case Failure(e) => Failure(e)
        case Success(xs) => Success(List(xs))
      else Success(b)
    case MergeListsOfDictsByKey(key, _) =>
      if a.List? && b.List? && AllDicts(a.items + b.items) then
        AllDictsSplit(a.items, b.items);
        match KeyedFrom(m, key, InitialTable(key, a.items), b, 0)
        case Failure(e) => Failure(e)
        case Success(table) => Success(List(Assoc.Values(table)))
      else Success(b)
  }

  /** `merger(i, j)` for each pair of `zip_longest(a, b, fillvalue={})` from the k-th on. */
  function PositionFrom(m: DeepMerger, pairs: seq<(Node, Node)>, b: Node, k: nat): Result<seq<Node>, MergeError>
    requires b.List? && k <= |pairs|
    requires forall i :: 0 <= i < |pairs| ==> pairs[i].0.Dict? && pairs[i].1.Dict?
    requires forall i :: 0 <= i < |pairs| ==> pairs[i].1 == Dict([]) || (i < |b.items| && pairs[i].1 == b.items[i])
    decreases Size(b), 0, |pairs| - k
  {
    if k == |pairs| then Success([])
    else
      FillOrItemSmaller(b, pairs[k].1, k);
      match Merge(m, pairs[k].0.entries, pairs[k].1.entries)
      case Failure(e) => Failure(e)
      case Success(es) =>
        match PositionFrom(m, pairs, b, k + 1)
        case Failure(e) => Failure(e)
        case Success(rest) => Success([Dict(es)] + rest)
  }

  /** A dict taken from b's items, or the `{}` fill value, is smaller than the list b. */
  lemma {:induction false} FillOrItemSmaller(b: Node, x: Node, k: nat)
    requires b.List? && x.Dict? && (x == Dict([]) || (k < |b.items| && x == b.items[k]))
    ensures Size(Dict(x.entries)) < Size(b)
  {
    if x != Dict([]) {
      ItemSmaller(b, k);
    } else {
      assert Size(Dict([])) == 1 by { assert EntriesSize(Dict([]), 0) == 0; }
    }
  }

  /** `[key(idx, item) for idx, item in enumerate(xs)][k:]`. */
  function KeyList(key: (nat, Node) -> Node, xs: seq<Node>, k: nat): (r: seq<Node>)
    requires k <= |xs|
    ensures |r| == |xs| - k
    ensures forall j :: k <= j < |xs| ==> r[j - k] == key(j, xs[j])
    decreases |xs| - k
  {
    if k == |xs| then [] else [key(k, xs[k])] + KeyList(key, xs, k + 1)
  }

  /** `{key(idx, item): item for idx, item in enumerate(a)}`: a later item with an equal key replaces the earlier in its place. */
  function InitialTable(key: (nat, Node) -> Node, a: seq<Node>): (t: seq<(Node, Node)>)
    ensures Assoc.Keys(t) == Assoc.AddKeys([], KeyList(key, a, 0))
    ensures forall p :: p in t ==> p.1 in a
  {
    TableFrom(key, a, [], 0)
  }

  function TableFrom(key: (nat, Node) -> Node, a: seq<Node>, t: seq<(Node, Node)>, i: nat): (r: seq<(Node, Node)>)
    requires i <= |a|
    ensures Assoc.Keys(r) == Assoc.AddKeys(Assoc.Keys(t), KeyList(key, a, i))
    ensures forall p :: p in r ==> p in t || p.1 in a
    decreases |a| - i
  {
    if i == |a| then t
    else
      Assoc.SetEntries(t, key(i, a[i]), a[i]);
      TableFrom(key, a, Assoc.Set(t, key(i, a[i]), a[i]), i + 1)
  }

  /** A key no item of a from i on produces keeps what t held. */
  lemma {:induction false} TableFromUntouched(key: (nat, Node) -> Node, a: seq<Node>, t: seq<(Node, Node)>, i: nat, x: Node)
    requires i <= |a|
    requires forall j :: i <= j < |a| ==> key(j, a[j]) != x
    ensures Assoc.Lookup(TableFrom(key, a, t, i), x) == Assoc.Lookup(t, x)
    decreases |a| - i
  {
    if i < |a| {
      var next := Assoc.Set(t, key(i, a[i]), a[i]);
      TableFromUntouched(key, a, next, i + 1, x);
    }
  }

  /** A key produced by item j of a, and by no later item, holds item j. */
  lemma {:induction false} TableFromLast(key: (nat, Node) -> Node, a: seq<Node>, t: seq<(Node, Node)>, i: nat, j: nat)
    requires i <= j < |a|
    requires forall l :: j < l < |a| ==> key(l, a[l]) != key(j, a[j])
    ensures Assoc.Lookup(TableFrom(key, a, t, i), key(j, a[j])) == Some(a[j])
    decreases |a| - i
  {
    var next := Assoc.Set(t, key(i, a[i]), a[i]);
    if i < j {
      TableFromLast(key, a, next, i + 1, j);
    } else {
      TableFromUntouched(key, a, next, i + 1, key(j, a[j]));
    }
  }

  /**
    `{key(idx, item): item for idx, item in enumerate(a)}`: the slot of every key
    holds the last item of a with that key, and no other key has a slot.
   */
  lemma {:induction false} InitialTableValues(key: (nat, Node) -> Node, a: seq<Node>)
    ensures forall j :: 0 <= j < |a| && (forall l :: j < l < |a| ==> key(l, a[l]) != key(j, a[j])) ==>
      Assoc.Lookup(InitialTable(key, a), key(j, a[j])) == Some(a[j])
    ensures forall x :: (forall j :: 0 <= j < |a| ==> key(j, a[j]) != x) ==> Assoc.Lookup(InitialTable(key, a), x).None?
  {
    forall j | 0 <= j < |a| && (forall l :: j < l < |a| ==> key(l, a[l]) != key(j, a[j]))
      ensures Assoc.Lookup(InitialTable(key, a), key(j, a[j])) == Some(a[j])
    {
      TableFromLast(key, a, [], 0, j);
    }
    forall x | (forall j :: 0 <= j < |a| ==> key(j, a[j]) != x)
      ensures Assoc.Lookup(InitialTable(key, a), x).None?
    {
      TableFromUntouched(key, a, [], 0, x);
    }
  }

  /** The loop of `MergeListsOfDictsByKey.__call__` from b's k-th item on: merge into the slot with the same key, or append. */
  function KeyedFrom(m: DeepMerger, key: (nat, Node) -> Node, table: seq<(Node, Node)>, b: Node, k: nat): Result<seq<(Node, Node)>, MergeError>
    requires b.List? && k <= |b.items| && AllDicts(b.items)
    requires forall p :: p in table ==> p.1.Dict?
    decreases Size(b), 0, |b.items| - k
  {
    if k == |b.items| then Success(table)
    else
      var itemKey := key(k, b.items[k]);
      match Assoc.Lookup(table, itemKey)
      case None =>
        Assoc.SetEntries(table, itemKey, b.items[k]);
        KeyedFrom(m, key, Assoc.Set(table, itemKey, b.items[k]), b, k + 1)
      case Some(prev) =>
        ItemSmaller(b, k);
        match Merge(m, prev.entries, b.items[k].entries)
        case Failure(e) => Failure(e)
        case Success(es) =>
          Assoc.SetEntries(table, itemKey, Dict(es));
          KeyedFrom(m, key, Assoc.Set(table, itemKey, Dict(es)), b, k + 1)
  }

  /** `DeepMerger.__call__`: copies a, then assigns each of b's keys in b's order. */
  method Call(m: DeepMerger, a: seq<(string, Node)>, b: seq<(string, Node)>) returns (r: Result<seq<(string, Node)>, MergeError>)
    ensures r == Merge(m, a, b)
  {
    var result := a;
    var i := 0;
    while i < |b|
      invariant i <= |b|
      invariant MergeFrom(m, result, b, i) == Merge(m, a, b)
    {
      var (k, v) := b[i];
      var merged := SelectStrategy(m, Assoc.GetOr(result, k, Leaf(Null)), v);
      if merged.Failure? {
        return Failure(merged.error);
      }
      result := Assoc.Set(result, k, merged.value);
      i := i + 1;
    }
    return Success(result);
  }

  /** `DeepMerger.merge_values`: returns from the first strategy whose test passes. */
  method SelectStrategy(m: DeepMerger, a: Node, b: Node) returns (r: Result<Node, MergeError>)
    ensures r == MergeValues(m, a, b)
  {
    var i := 0;
    while i < |m.strategies|
      invariant i <= |m.strategies|
      invariant StrategyLoop(m, i, a, b) == MergeValues(m, a, b)
    {
      var applies := Test(m.strategies[i], a, b);
      if applies.Failure? {
        return Failure(applies.error);
      }
      if applies.value {
        return Apply(m, m.strategies[i], a, b);
      }
      i := i + 1;
    }
    return Success(b);
  }

  /** `MergeListsOfDictsByKey.__call__`: fills `temp_dict` from a, then merges or appends each item of b. */
  method KeyedCall(m: DeepMerger, s: Strategy, a: seq<Node>, b: seq<Node>) returns (r: Result<Node, MergeError>)
    requires s.MergeListsOfDictsByKey? && AllDicts(a) && AllDicts(b)
    ensures r == Apply(m, s, List(a), List(b))
  {
    AllDictsSplit(a, b);
    var temp := InitialTable(s.key, a);
    ghost var overall := KeyedFrom(m, s.key, temp, List(b), 0);
    var idx := 0;
    while idx < |b|
      invariant idx <= |b|
      invariant forall p :: p in temp ==> p.1.Dict?
      invariant KeyedFrom(m, s.key, temp, List(b), idx) == overall
    {
      var newItem := b[idx];
      var itemKey := s.key(idx, newItem);
      var found := Assoc.Lookup(temp, itemKey);
      if found.Some? {
        var merged := Call(m, found.value.entries, newItem.entries);
        if merged.Failure? {
          return Failure(merged.error);
        }
        Assoc.SetEntries(temp, itemKey, Dict(merged.value));
        temp := Assoc.Set(temp, itemKey, Dict(merged.value));
      } else {
        Assoc.SetEntries(temp, itemKey, newItem);
        temp := Assoc.Set(temp, itemKey, newItem);
      }
      idx := idx + 1;
    }
    return Success(List(Assoc.Values(temp)));
  }
}
