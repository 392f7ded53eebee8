/**
  `Traversor`: resolves a dotted path against a tree, one segment per hop,
  and reports the exact segment at which the walk stopped.
 */
module Resolver {
  import opened Wrappers
  import opened Text
  import opened Tree
  import opened Path
  import Assoc

  /**
    What a lookup can raise.  The first three are the library's own errors and
    subclass `KeyError`; `int(part)` on a non-numeric segment raises a plain
    `ValueError`, and `DeepList[i]` out of range a plain `IndexError`.
   */
  datatype AccessError =
    | DeepDictKeyError(key: Key)
    | DeepDictIndexError(key: Key)
    | DeepDictValueError(key: Key)
    | IntParseError(key: Key)
    | ListIndexError(index: int)

  /** Whether `except KeyError` catches the error. */
  predicate IsKeyError(e: AccessError) {
    e.DeepDictKeyError? || e.DeepDictIndexError? || e.DeepDictValueError?
  }

  /** Python sequence indexing: `-len <= i < len` is valid, negative indices count from the end. */
  function NormaliseIndex(i: int, len: nat): (r: Option<nat>)
    ensures r.Some? <==> -(len as int) <= i < len
    ensures r.Some? ==> r.value < len && (r.value == i || r.value == i + len)
  {
    if 0 <= i < len then Some(i)
    else if -(len as int) <= i < 0 then Some(i + len)
    else None
  }

  /** `Traversor._value_from_list`. */
  function ValueFromList(k: Key, items: seq<Node>): Result<Node, AccessError> {
    match ParseInt(k.part)
    case None => Failure(IntParseError(k))
    case Some(i) =>
      match NormaliseIndex(i, |items|)
      case None => Failure(DeepDictIndexError(k))
      case Some(j) => Success(items[j])
  }

  /** `Traversor._value_from_dict`. */
  function ValueFromDict(k: Key, entries: seq<(string, Node)>): Result<Node, AccessError> {
    match Assoc.Lookup(entries, k.part)
    case None => Failure(DeepDictKeyError(k))
    case Some(v) => Success(v)
  }

  /** One iteration of the loop in `Traversor.__getitem__`. */
  function Step(value: Node, k: Key): Result<Node, AccessError> {
    match value
    case Dict(es) => ValueFromDict(k, es)
    case List(xs) => ValueFromList(k, xs)
    case Tuple(xs) => ValueFromList(k, xs)
    case Leaf(_) => Failure(DeepDictValueError(k))
  }

  /** The walk over a sequence of segments: the value after the last one, or the first failure. */
  function Walk(value: Node, keys: seq<Key>): Result<Node, AccessError>
    decreases |keys|
  {
    if keys == [] then Success(value)
    else
      match Step(value, keys[0])
      case Failure(e) => Failure(e)
      case Success(next) => Walk(next, keys[1..])
  }

  /** `Traversor(tree)[key]`. */
  function Resolve(tree: Node, key: string): Result<Node, AccessError> {
    Walk(tree, KeysOf(MakeNestedKey(key, "").path))
  }

  /** `Traversor.__getitem__`: reassigns the current value segment by segment. */
  method Traverse(wrapped: Node, key: string) returns (r: Result<Node, AccessError>)
    ensures r == Resolve(wrapped, key)
  {
    var nk := MakeNestedKey(key, "");
    var keys := Iterate(nk);
    r := WalkSegments(wrapped, keys);
  }

  /** The loop of `Traversor.__getitem__` over the segments of the key. */
  method WalkSegments(wrapped: Node, keys: seq<Key>) returns (r: Result<Node, AccessError>)
    ensures r == Walk(wrapped, keys)
  {
    ghost var overall := Walk(wrapped, keys);
    var value := wrapped;
    var i := 0;
    while i < |keys|
      invariant i <= |keys|
      invariant overall == Walk(value, keys[i..])
    {
      var part := keys[i];
      WalkUnfold(value, keys, i);
      var next: Result<Node, AccessError>;
      if value.Dict? {
        next := ValueFromDict(part, value.entries);
      } else if value.List? || value.Tuple? {
        next := ValueFromList(part, value.items);
      } else {
        return Failure(DeepDictValueError(part));
      }
      if next.Failure? {
        return Failure(next.error);
      }
      value := next.value;
      i := i + 1;
    }
    assert keys[i..] == [];
    return Success(value);
  }

  lemma {:induction false} WalkUnfold(value: Node, keys: seq<Key>, i: nat)
    requires i < |keys|
    ensures Walk(value, keys[i..]) ==
      match Step(value, keys[i])
      case Failure(e) => Failure(e)
      case Success(next) => Walk(next, keys[i + 1..])
  {
    assert keys[i..][0] == keys[i];
    assert keys[i..][1..] == keys[i + 1..];
  }

  /** Every failure of one hop names the segment it was given, and is one of the classified errors or the int() failure. */
  lemma {:induction false} StepFailureNamesSegment(value: Node, k: Key)
    requires Step(value, k).Failure?
    ensures !Step(value, k).error.ListIndexError?
    ensures Step(value, k).error.key == k
    ensures Step(value, k).error.DeepDictValueError? <==> value.Leaf?
    ensures Step(value, k).error.DeepDictKeyError? <==> value.Dict?
  {
  }

  /** Segments are consumed left to right: walking a concatenation walks the first part, then the second from where it ended. */
  lemma {:induction false} WalkAppend(value: Node, ks1: seq<Key>, ks2: seq<Key>)
    ensures Walk(value, ks1 + ks2) ==
      match Walk(value, ks1)
      case Failure(e) => Failure(e)
      case Success(m) => Walk(m, ks2)
    decreases |ks1|
  {
    if ks1 != [] {
      assert (ks1 + ks2)[0] == ks1[0];
      assert (ks1 + ks2)[1..] == ks1[1..] + ks2;
      match Step(value, ks1[0])
      case Failure(e) =>
      case Success(next) => WalkAppend(next, ks1[1..], ks2);
    } else {
      assert ks1 + ks2 == ks2;
    }
  }

  /**
    A failed walk stopped at exactly one segment: the walk up to segment i
    succeeded, the hop at segment i failed, and the error is that hop's error,
    carrying segment i and nothing of the later ones.
   */
  lemma {:induction false} WalkFailureIsFirstFailedHop(value: Node, keys: seq<Key>)
    requires Walk(value, keys).Failure?
    ensures exists i, m ::
      (0 <= i < |keys| && Walk(value, keys[..i]) == Success(m)
       && Step(m, keys[i]) == Walk(value, keys)
       && Walk(value, keys).error.key == keys[i])
    decreases |keys|
  {
    assert keys[..0] == [];
    match Step(value, keys[0])
    case Failure(e) =>
      StepFailureNamesSegment(value, keys[0]);
      assert Walk(value, keys[..0]) == Success(value);
    case Success(next) =>
      WalkFailureIsFirstFailedHop(next, keys[1..]);
      var i, m :| 0 <= i < |keys[1..]| && Walk(next, keys[1..][..i]) == Success(m)
        && Step(m, keys[1..][i]) == Walk(next, keys[1..]) && Walk(next, keys[1..]).error.key == keys[1..][i];
      assert keys[..i + 1] == [keys[0]] + keys[1..][..i];
      assert keys[..i + 1][1..] == keys[1..][..i];
      assert Walk(value, keys[..i + 1]) == Success(m);
  }

  /** A dict hop looks the segment text up, and fails exactly when the key is missing. */
  lemma {:induction false} DictHop(entries: seq<(string, Node)>, k: Key)
    ensures Step(Dict(entries), k) == Failure(DeepDictKeyError(k)) <==> k.part !in Assoc.Keys(entries)
    ensures k.part in Assoc.Keys(entries) ==> Step(Dict(entries), k) == Success(Assoc.Lookup(entries, k.part).value)
  {
  }

  /** A list hop indexes by `int(segment)`; negative indices count from the end, and out-of-range ones raise the index error. */
  lemma {:induction false} ListHop(items: seq<Node>, k: Key, i: int)
    requires ParseInt(k.part) == Some(i)
    ensures 0 <= i < |items| ==> Step(List(items), k) == Success(items[i])
    ensures -|items| <= i < 0 ==> Step(List(items), k) == Success(items[i + |items|])
    ensures (i < -|items| || i >= |items|) ==> Step(List(items), k) == Failure(DeepDictIndexError(k))
  {
  }

  /** A hop into a scalar always fails with the value error for that segment. */
  lemma {:induction false} ScalarHop(x: Scalar, k: Key)
    ensures Step(Leaf(x), k) == Failure(DeepDictValueError(k))
  {
  }
}
