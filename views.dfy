/**
  The read-only views `DeepDict` and `DeepList`: dotted-path access over a
  wrapped dict, list or tuple, with containers re-wrapped on the way out and
  `==` / `in` answered by the matcher.
 */
module Views {
  import opened Wrappers
  import opened Text
  import opened Tree
  import opened Path
  import opened Resolver
  import opened Matcher
  import MatcherLaws
  import Assoc

  /** A view and the object it wraps. */
  datatype Deep = DeepDict(entries: seq<(string, Node)>) | DeepList(items: seq<Node>, tuple: bool)

  /** `self.wrapped_obj`. */
  function Wrapped(d: Deep): (n: Node)
    ensures d.DeepDict? <==> n.Dict?
  {
    match d
    case DeepDict(es) => Dict(es)
    case DeepList(xs, t) => if t then Tuple(xs) else List(xs)
  }

  /** What a lookup hands back: a fresh view over a container, or a scalar as it is. */
  datatype Item = View(deep: Deep) | Raw(node: Node)

  /** The object an item stands for. */
  function Unwrap(r: Item): Node {
    match r
    case View(d) => Wrapped(d)
    case Raw(n) => n
  }

  /** `DeepFactory`: dicts become DeepDicts, lists and tuples DeepLists, anything else is returned unchanged. */
  function DeepFactory(n: Node): (r: Item)
    ensures r.Raw? <==> n.Leaf?
    ensures Unwrap(r) == n
  {
    match n
    case Dict(es) => View(DeepDict(es))
    case List(xs) => View(DeepList(xs, false))
    case Tuple(xs) => View(DeepList(xs, true))
    case Leaf(_) => Raw(n)
  }

  /** Wrapping is a bijection between containers and views: a view wrapped again is the same view. */
  lemma {:induction false} FactoryOfUnwrap(r: Item)
    requires r.View? || r.node.Leaf?
    ensures DeepFactory(Unwrap(r)) == r
  {
  }

  /** `DeepDict.__getitem__`, and `DeepList.__getitem__` with a string: resolve the path, then wrap the result. */
  function GetItem(d: Deep, key: string): (r: Result<Item, AccessError>)
    ensures r.Success? <==> Resolve(Wrapped(d), key).Success?
    ensures r.Success? ==> Unwrap(r.value) == Resolve(Wrapped(d), key).value
    ensures r.Failure? ==> r.error == Resolve(Wrapped(d), key).error
  {
    match Resolve(Wrapped(d), key)
    case Success(v) => Success(DeepFactory(v))
    case Failure(e) => Failure(e)
  }

  /** The index of `DeepList.__getitem__`: an int, or a dotted path. */
  datatype Index = AtInt(i: int) | AtPath(path: string)

  /** `DeepList.__getitem__`: an int indexes the wrapped sequence and returns the element unwrapped; a path is resolved. */
  function ListGetItem(items: seq<Node>, tuple: bool, index: Index): (r: Result<Item, AccessError>)
    ensures index.AtInt? ==> (r.Success? <==> -|items| <= index.i < |items|)
    ensures index.AtInt? && 0 <= index.i < |items| ==> r == Success(Raw(items[index.i]))
    ensures index.AtInt? && -|items| <= index.i < 0 ==> r == Success(Raw(items[index.i + |items|]))
    ensures index.AtInt? && r.Failure? ==> r.error == ListIndexError(index.i)
  {
    match index
    case AtInt(i) =>
      (match NormaliseIndex(i, |items|)
       case None => Failure(ListIndexError(i))
       case Some(j) => Success(Raw(items[j])))
    case AtPath(p) => GetItem(DeepList(items, tuple), p)
  }

  /** An int index and the same index written as a path reach the same element; only the path form wraps it. */
  lemma {:induction false} IntIndexAgreesWithPath(items: seq<Node>, tuple: bool, n: nat)
    requires n < |items|
    ensures ListGetItem(items, tuple, AtPath(NatToString(n))) == Success(DeepFactory(items[n]))
    ensures ListGetItem(items, tuple, AtInt(n)) == Success(Raw(items[n]))
  {
    var key := NatToString(n);
    assert Sep !in key by {
      forall c | c in key ensures c != Sep {
        var i :| 0 <= i < |key| && key[i] == c;
      }
    }
    var w := Wrapped(DeepList(items, tuple));
    SingleSegmentResolve(w, key);
    ParseIntRoundTrip(n);
    assert ValueFromList(Key(key, ""), items) == Success(items[n]);
  }

  /** A key without a separator is one segment with an empty origin. */
  lemma {:induction false} SingleSegment(key: string)
    requires Sep !in key
    ensures KeysOf(MakeNestedKey(key, "").path) == [Key(key, "")]
  {
    assert MakeNestedKey(key, "").path == [key] by {
      assert PathOf(key, "") == Split(key);
    }
    assert DropLeadingEmpty([key][..0]) == [] by { assert [key][..0] == []; }
  }

  /** Resolving a key without a separator is a single hop. */
  lemma {:induction false} SingleSegmentResolve(tree: Node, key: string)
    requires Sep !in key
    ensures Resolve(tree, key) == Step(tree, Key(key, ""))
  {
    SingleSegment(key);
    assert [Key(key, "")][1..] == [];
    match Step(tree, Key(key, ""))
    case Failure(_) =>
    case Success(v) => assert Walk(v, []) == Success(v);
  }

  /** `DeepDict.get`: the looked-up item, or the default on any `KeyError`; other errors propagate. */
  function Get(entries: seq<(string, Node)>, key: string, default: Item): (r: Result<Item, AccessError>)
    ensures GetItem(DeepDict(entries), key).Success? ==> r == GetItem(DeepDict(entries), key)
    ensures GetItem(DeepDict(entries), key).Failure? && IsKeyError(GetItem(DeepDict(entries), key).error) ==> r == Success(default)
    ensures GetItem(DeepDict(entries), key).Failure? && !IsKeyError(GetItem(DeepDict(entries), key).error) ==> r == GetItem(DeepDict(entries), key)
  {
    match GetItem(DeepDict(entries), key)
    case Success(v) => Success(v)
    case Failure(e) => if IsKeyError(e) then Success(default) else Failure(e)
  }

  /** `DeepDict.__contains__`: true when the lookup succeeds, false on a `KeyError`; other errors propagate. */
  function Contains(entries: seq<(string, Node)>, key: string): (r: Result<bool, AccessError>)
    ensures r == Success(true) <==> GetItem(DeepDict(entries), key).Success?
    ensures r == Success(false) <==> GetItem(DeepDict(entries), key).Failure? && IsKeyError(GetItem(DeepDict(entries), key).error)
    ensures r.Failure? ==> r.error == GetItem(DeepDict(entries), key).error && !IsKeyError(r.error)
  {
    match GetItem(DeepDict(entries), key)
    case Success(_) => Success(true)
    case Failure(e) => if IsKeyError(e) then Success(false) else Failure(e)
  }

  /** `DeepDict.__iter__` and `keys()`: the wrapped dict's own keys, in order. */
  function Iter(entries: seq<(string, Node)>): (ks: seq<string>)
    ensures |ks| == |entries|
    ensures forall k :: 0 <= k < |entries| ==> ks[k] == entries[k].0
  {
    Assoc.Keys(entries)
  }

  /** `DeepDict.items()` from the i-th key on: each key with `self[key]`, stopping at the first lookup that raises. */
  function ItemsFrom(entries: seq<(string, Node)>, i: nat): (r: Result<seq<(string, Item)>, AccessError>)
    requires i <= |entries|
    ensures r.Success? ==> |r.value| == |entries| - i
    decreases |entries| - i
  {
    if i == |entries| then Success([])
    else
      match GetItem(DeepDict(entries), entries[i].0)
      case Failure(e) => Failure(e)
      case Success(v) =>
        match ItemsFrom(entries, i + 1)
        case Failure(e) => Failure(e)
        case Success(rest) => Success([(entries[i].0, v)] + rest)
  }

  /** `DeepDict.items()`. */
  function Items(entries: seq<(string, Node)>): Result<seq<(string, Item)>, AccessError> {
    ItemsFrom(entries, 0)
  }

  /** `DeepDict.values()`, drawn from the same lookups as `items()`. */
  function Values(entries: seq<(string, Node)>): (r: Result<seq<Item>, AccessError>)
    ensures r.Success? <==> Items(entries).Success?
    ensures r.Success? ==> |r.value| == |entries| && forall k :: 0 <= k < |entries| ==> r.value[k] == Items(entries).value[k].1
  {
    match Items(entries)
    case Failure(e) => Failure(e)
    case Success(kvs) => Success(Assoc.Values(kvs))
  }

  /** A key that holds no separator is looked up in the wrapped dict directly. */
  lemma {:induction false} SegmentFreeLookup(entries: seq<(string, Node)>, key: string, v: Node)
    requires Sep !in key && Assoc.Lookup(entries, key) == Some(v)
    ensures GetItem(DeepDict(entries), key) == Success(DeepFactory(v))
  {
    SingleSegmentResolve(Dict(entries), key);
  }

  /** With distinct keys, a key that holds no separator looks up its own value. */
  lemma {:induction false} PlainKeyLookup(entries: seq<(string, Node)>, i: nat)
    requires i < |entries| && Assoc.NoDup(Assoc.Keys(entries)) && Sep !in entries[i].0
    ensures GetItem(DeepDict(entries), entries[i].0) == Success(DeepFactory(entries[i].1))
  {
    Assoc.LookupAt(entries, i);
    SegmentFreeLookup(entries, entries[i].0, entries[i].1);
  }

  /** Each pair with its value passed through `DeepFactory`. */
  function DeepPairs(es: seq<(string, Node)>): (r: seq<(string, Item)>)
    ensures |r| == |es|
    ensures forall k :: 0 <= k < |es| ==> r[k] == (es[k].0, DeepFactory(es[k].1))
  {
    if es == [] then [] else [(es[0].0, DeepFactory(es[0].1))] + DeepPairs(es[1..])
  }

  /** One step of `items()`: when it succeeds, the first lookup succeeded and its pair leads the rest. */
  lemma {:induction false} ItemsFromStep(entries: seq<(string, Node)>, i: nat)
    requires i < |entries| && ItemsFrom(entries, i).Success?
    ensures GetItem(DeepDict(entries), entries[i].0).Success? && ItemsFrom(entries, i + 1).Success?
    ensures ItemsFrom(entries, i).value ==
      [(entries[i].0, GetItem(DeepDict(entries), entries[i].0).value)] + ItemsFrom(entries, i + 1).value
  {
  }

  /** `items()` lists the keys of the wrapped dict, in order, exactly as `keys()` does. */
  lemma {:induction false} ItemsListKeysInOrder(entries: seq<(string, Node)>)
    requires Items(entries).Success?
    ensures Assoc.Keys(Items(entries).value) == Iter(entries)
  {
    ItemsFromKeys(entries, 0);
    assert entries[0..] == entries;
  }

  lemma {:induction false} ItemsFromKeys(entries: seq<(string, Node)>, i: nat)
    requires i <= |entries| && ItemsFrom(entries, i).Success?
    ensures Assoc.Keys(ItemsFrom(entries, i).value) == Assoc.Keys(entries[i..])
    decreases |entries| - i
  {
    if i < |entries| {
      ItemsFromStep(entries, i);
      ItemsFromKeys(entries, i + 1);
      var r := ItemsFrom(entries, i).value;
      assert r[1..] == ItemsFrom(entries, i + 1).value;
      assert entries[i..][1..] == entries[i + 1..];
    }
  }

  /**
    With distinct keys that hold no separator, `items()` pairs every key of
    the wrapped dict, in order, with its own value passed through `DeepFactory`.
   */
  lemma {:induction false} ItemsOfPlainKeys(entries: seq<(string, Node)>)
    requires Assoc.NoDup(Assoc.Keys(entries))
    requires forall k :: 0 <= k < |entries| ==> Sep !in entries[k].0
    ensures Items(entries) == Success(DeepPairs(entries))
  {
    PlainItemsFrom(entries, 0);
    WholeSlice(entries);
  }

  lemma {:induction false} WholeSlice<T>(s: seq<T>)
    ensures s[0..] == s
  {
  }

  lemma {:induction false} PlainItemsFrom(entries: seq<(string, Node)>, i: nat)
    requires i <= |entries|
    requires Assoc.NoDup(Assoc.Keys(entries))
    requires forall k :: 0 <= k < |entries| ==> Sep !in entries[k].0
    ensures ItemsFrom(entries, i) == Success(DeepPairs(entries[i..]))
    decreases |entries| - i
  {
    if i < |entries| {
      PlainKeyLookup(entries, i);
      PlainItemsFrom(entries, i + 1);
      assert entries[i..][1..] == entries[i + 1..];
    }
  }

  /**
    Every key is looked up as a path, so a key holding the separator is not
    found by `items()`, `values()` or `in` even though `keys()` lists it:
    `{"a.b": 1}` has key "a.b", yet looking it up raises the key error for
    segment "a".
   */
  lemma {:induction false} DottedKeyIsReadAsPath()
    ensures Iter([("a.b", Leaf(Int(1)))]) == ["a.b"]
    ensures GetItem(DeepDict([("a.b", Leaf(Int(1)))]), "a.b") == Failure(DeepDictKeyError(Key("a", "")))
    ensures Contains([("a.b", Leaf(Int(1)))], "a.b") == Success(false)
    ensures Items([("a.b", Leaf(Int(1)))]) == Failure(DeepDictKeyError(Key("a", "")))
  {
    var es := [("a.b", Leaf(Int(1)))];
    assert Split("a.b") == ["a", "b"] by {
      SplitJoin(["a", "b"]);
      JoinCons("a", ["b"]);
      assert ["a", "b"] == ["a"] + ["b"];
    }
    assert MakeNestedKey("a.b", "").path == ["a", "b"] by {
      assert PathOf("a.b", "") == Split("a.b");
    }
    var keys := KeysOf(["a", "b"]);
    assert keys[0] == Key("a", "") by {
      assert DropLeadingEmpty(["a", "b"][..0]) == [] by { assert ["a", "b"][..0] == []; }
    }
    assert Assoc.Lookup(es, "a") == None;
  }

  /** `DeepDict.__eq__`: the wrapped dict matched against the spec at the top location. */
  function DictEquals(entries: seq<(string, Node)>, spec: Spec, h: Host): Outcome
    requires spec.SDict?
  {
    MatchDict(entries, spec, "", h)
  }

  /** `DeepList.__eq__`. */
  function ListEquals(items: seq<Node>, tuple: bool, spec: Spec, h: Host): Outcome
    requires spec.SList? || spec.STuple?
  {
    MatchList(items, tuple, spec, "", h)
  }

  /** `DeepList.__contains__`: matches against `[item, ...]`; a `MatcherError` means false, other exceptions propagate. */
  function ListContains(items: seq<Node>, tuple: bool, item: Spec, h: Host): (r: Result<bool, Fault>)
    ensures r == Success(true) <==> ListEquals(items, tuple, SList([item, Wildcard]), h).Matched?
    ensures r == Success(false) <==> ListEquals(items, tuple, SList([item, Wildcard]), h).Mismatch?
  {
    match ListEquals(items, tuple, SList([item, Wildcard]), h)
    case Matched => Success(true)
    case Mismatch(_) => Success(false)
    case Escaped(f) => Failure(f)
  }

  /**
    `item in DeepList(list)` holds exactly when some element matches the item
    (as long as no element raises something other than a `MatcherError`), and
    on a DeepList over a tuple it raises, because the unordered match copies
    the sequence with `.copy()`.
   */
  lemma {:induction false} ListContainsIffSomeElementMatches(items: seq<Node>, item: Spec, h: Host)
    requires !item.Wildcard?
    requires forall k :: 0 <= k < |items| ==> !Validate(WrapValue(items[k], item), item, "", h).Escaped?
    ensures ListContains(items, false, item, h) ==
      Success(exists k :: 0 <= k < |items| && Validate(WrapValue(items[k], item), item, "", h).Matched?)
    ensures ListContains(items, true, item, h) == Failure(TupleHasNoCopy)
  {
    var spec := SList([item, Wildcard]);
    assert IsUnorderedSpec(spec) by { assert spec.items[1] == Wildcard; }
    var slots := InitialSlots(items);
    MatcherLaws.ClaimIsFirstFit(slots, spec, 0, 0, "", h);
    assert forall k :: 0 <= k < |slots| ==> MatcherLaws.SlotOutcome(slots, spec, 0, k, "", h) == Validate(WrapValue(items[k], item), item, "", h);
    match Claim(slots, spec, 0, 0, "", h)
    case Found(k) =>
      assert MatchList(items, false, spec, "", h) == UnorderedFrom(slots, spec, 0, "", h);
      assert UnorderedFrom(slots[k := Claimed], spec, 1, "", h) == Matched;
      assert Validate(WrapValue(items[k], item), item, "", h).Matched?;
    case NotFound =>
      assert MatchList(items, false, spec, "", h) == Mismatch(NoMatchFound("", item, Remaining(slots)));
      assert !exists k :: 0 <= k < |items| && Validate(WrapValue(items[k], item), item, "", h).Matched? by {
        assert forall k :: 0 <= k < |items| ==> slots[k].Free?;
      }
    case Raised(f) =>
      assert false;
  }
}
