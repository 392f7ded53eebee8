/**
  A lookup from the access tests, worked through the model: the dotted path
  `"2.b.iii.x.y.z"` stops at its third segment.
 */
module AccessExamples {
  import opened Wrappers
  import opened Tree
  import opened Path
  import opened Resolver
  import opened Views

  function S(s: string): Node { Leaf(Str(s)) }

  /** The `"2"` branch of the access tests' fixture: `{"2": {"a": "A", "b": {"i": "I", "ii": "II"}}}`. */
  function Inner(): Node { Dict([("i", S("I")), ("ii", S("II"))]) }
  function Middle(): Node { Dict([("a", S("A")), ("b", Inner())]) }
  function Fixture(): seq<(string, Node)> { [("2", Middle())] }

  /** Any walk whose first three segments are `2`, `b` and `Key(origin='2.b', part='iii')` stops at the third. */
  lemma {:induction false} WalkStopsAtThird(keys: seq<Key>)
    requires |keys| >= 3 && keys[0].part == "2" && keys[1].part == "b" && keys[2] == Key("iii", "2.b")
    ensures Walk(Dict(Fixture()), keys) == Failure(DeepDictKeyError(Key("iii", "2.b")))
  {
    WalkUnfold(Dict(Fixture()), keys, 0);
    WalkUnfold(Middle(), keys, 1);
    WalkUnfold(Inner(), keys, 2);
    assert Step(Dict(Fixture()), keys[0]) == Success(Middle());
    assert Step(Middle(), keys[1]) == Success(Inner());
    assert Step(Inner(), keys[2]) == Failure(DeepDictKeyError(Key("iii", "2.b")));
    assert keys[0..] == keys;
  }

  /**
    Test `test_deep_getitem_key_error`: the walk takes `"2"` and `"b"`, then
    fails on `Key(origin='2.b', part='iii')`, carrying none of the later segments;
    `get` with a default returns the default.
   */
  lemma {:induction false} MissingThirdSegment(default: Item)
    ensures Resolve(Dict(Fixture()), "2.b.iii.x.y.z") == Failure(DeepDictKeyError(Key("iii", "2.b")))
    ensures Get(Fixture(), "2.b.iii.x.y.z", default) == Success(default)
  {
    var path := MakeNestedKey("2.b.iii.x.y.z", "").path;
    ExamplePath();
    ThirdSegmentOfExample();
    var keys := KeysOf(path);
    assert keys[0].part == path[0] == "2";
    assert keys[1].part == path[1] == "b";
    WalkStopsAtThird(keys);
  }
}
