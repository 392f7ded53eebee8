/**
  Dotted paths (`NestedKey`) and their segments (`Key`).  A segment remembers
  its origin, the dotted prefix consumed before it, so that a failed lookup can
  name the exact hop that failed.
 */
module Path {
  import opened Text

  /** `Key(part, origin)`: one segment of a path and the dotted prefix before it. */
  datatype Key = Key(part: string, origin: string)

  /** `format(key, formatSpec)`: the bare part, or with the "origin" spec the part qualified by its origin. */
  function Format(k: Key, formatSpec: string): string {
    if formatSpec != "origin" then k.part
    else if k.origin == "" then k.part
    else k.origin + [Sep] + k.part
  }

  /** `NestedKey(key, origin)`: the dotted string and the list of its raw pieces. */
  datatype NestedKey = NestedKey(text: string, path: seq<string>)

  /** `NestedKey._path`: the origin as an extra leading piece when it is non-empty, then the split key. */
  function PathOf(key: string, origin: string): seq<string> {
    (if origin != "" then [origin] else []) + Split(key)
  }

  /** `NestedKey._collapse`. */
  function Collapse(path: seq<string>): string {
    Join(path)
  }

  /**
    `NestedKey(key, origin)`.  Its text is the key itself when the origin is
    empty and `origin + "." + key` otherwise, and splitting the text gives the
    path back whenever the origin holds no separator.
   */
  function MakeNestedKey(key: string, origin: string): (nk: NestedKey)
    ensures |nk.path| >= 1
    ensures nk.text == if origin == "" then key else origin + [Sep] + key
    ensures Sep !in origin ==> Split(nk.text) == nk.path
    ensures origin == "" ==> nk.path == Split(key)
    ensures origin != "" ==> nk.path[0] == origin && nk.path[1..] == Split(key)
  {
    var path := PathOf(key, origin);
    PathRoundTrip(key, origin);
    NestedKey(Collapse(path), path)
  }

  lemma {:induction false} PathRoundTrip(key: string, origin: string)
    ensures Join(PathOf(key, origin)) == if origin == "" then key else origin + [Sep] + key
    ensures Sep !in origin ==> Split(Join(PathOf(key, origin))) == PathOf(key, origin)
  {
    var path := PathOf(key, origin);
    JoinSplit(key);
    if origin != "" {
      assert path == [origin] + Split(key);
      JoinCons(origin, Split(key));
    } else {
      assert path == Split(key);
    }
    if Sep !in origin {
      assert forall i :: 0 <= i < |path| ==> Sep !in path[i] by {
        forall i | 0 <= i < |path| ensures Sep !in path[i] {
          if origin != "" && i > 0 { assert path[i] == Split(key)[i - 1]; }
        }
      }
      SplitJoin(path);
    }
  }

  /** The pieces after any leading empty ones: a leading empty piece never shows in an origin. */
  function DropLeadingEmpty(ps: seq<string>): (r: seq<string>)
    ensures r == [] || r[0] != ""
  {
    if ps != [] && ps[0] == "" then DropLeadingEmpty(ps[1..]) else ps
  }

  /**
    The segments a NestedKey yields, in closed form: segment i carries piece i
    and, as origin, the dotted join of the pieces before it (leading empty pieces
    left out).
   */
  function KeysOf(path: seq<string>): (ks: seq<Key>)
    ensures |ks| == |path|
  {
    seq(|path|, i requires 0 <= i < |path| => Key(path[i], Join(DropLeadingEmpty(path[..i]))))
  }

  lemma {:induction false} JoinEmptyOnlyIfNoPieces(ps: seq<string>)
    requires ps == [] || ps[0] != ""
    ensures Join(ps) == "" <==> ps == []
  {
    if |ps| >= 2 { JoinCons(ps[0], ps[1..]); assert ps == [ps[0]] + ps[1..]; }
  }

  lemma {:induction false} JoinSnoc(ps: seq<string>, p: string)
    requires |ps| >= 1
    ensures Join(ps + [p]) == Join(ps) + [Sep] + p
    decreases |ps|
  {
    if |ps| == 1 {
      JoinCons(ps[0], [p]);
    } else {
      JoinSnoc(ps[1..], p);
      JoinCons(ps[0], ps[1..] + [p]);
      JoinCons(ps[0], ps[1..]);
      assert ps + [p] == [ps[0]] + (ps[1..] + [p]);
      assert ps == [ps[0]] + ps[1..];
    }
  }

  lemma {:induction false} DropLeadingEmptySnoc(ps: seq<string>, p: string)
    ensures DropLeadingEmpty(ps + [p]) ==
      if DropLeadingEmpty(ps) == [] then DropLeadingEmpty([p]) else DropLeadingEmpty(ps) + [p]
    decreases |ps|
  {
    if ps != [] {
      assert (ps + [p])[1..] == ps[1..] + [p];
      if ps[0] == "" { DropLeadingEmptySnoc(ps[1..], p); }
    }
  }

  /** One step of `NestedKey.__iter__`: formatting a segment with "origin" gives the next segment's origin. */
  lemma {:induction false} OriginStep(ps: seq<string>, p: string)
    ensures Format(Key(p, Join(DropLeadingEmpty(ps))), "origin") == Join(DropLeadingEmpty(ps + [p]))
  {
    var d := DropLeadingEmpty(ps);
    JoinEmptyOnlyIfNoPieces(d);
    DropLeadingEmptySnoc(ps, p);
    if d == [] {
      assert Join(d) == "";
      assert DropLeadingEmpty(ps + [p]) == DropLeadingEmpty([p]);
      if p == "" {
        assert DropLeadingEmpty([p]) == DropLeadingEmpty([p][1..]);
        assert [p][1..] == [];
      } else {
        assert DropLeadingEmpty([p]) == [p];
      }
    } else {
      JoinSnoc(d, p);
      assert Join(d) != "";
      assert DropLeadingEmpty(ps + [p]) == d + [p];
    }
  }

  /**
    `NestedKey.__iter__`: threads the origin through the pieces, yielding one
    segment per piece.
   */
  method Iterate(nk: NestedKey) returns (keys: seq<Key>)
    ensures keys == KeysOf(nk.path)
  {
    var origin := "";
    keys := [];
    var i := 0;
    while i < |nk.path|
      invariant i <= |nk.path|
      invariant keys == KeysOf(nk.path)[..i]
      invariant origin == Join(DropLeadingEmpty(nk.path[..i]))
    {
      var part := Key(nk.path[i], origin);
      assert KeysOf(nk.path)[i] == part;
      assert KeysOf(nk.path)[..i + 1] == KeysOf(nk.path)[..i] + [part];
      keys := keys + [part];
      OriginStep(nk.path[..i], nk.path[i]);
      assert nk.path[..i + 1] == nk.path[..i] + [nk.path[i]];
      origin := Format(part, "origin");
      i := i + 1;
    }
  }

  /**
    With no empty piece, segment i carries piece i, its origin is the join of
    pieces 0..i-1 (empty for the first), and its origin-qualified form is the
    join of pieces 0..i.
   */
  lemma {:induction false} NonEmptyOrigins(path: seq<string>, i: nat)
    requires i < |path|
    requires forall j :: 0 <= j < |path| ==> path[j] != ""
    ensures KeysOf(path)[i].part == path[i]
    ensures KeysOf(path)[i].origin == Join(path[..i])
    ensures i == 0 ==> KeysOf(path)[i].origin == ""
    ensures Format(KeysOf(path)[i], "origin") == Join(path[..i + 1])
  {
    assert DropLeadingEmpty(path[..i]) == path[..i] by {
      if i > 0 { assert path[..i][0] == path[0]; }
    }
    OriginStep(path[..i], path[i]);
    assert path[..i + 1] == path[..i] + [path[i]];
    assert DropLeadingEmpty(path[..i + 1]) == path[..i + 1] by {
      assert path[..i + 1][0] == path[0];
    }
  }

  /** The segment that `"2.b.iii.x.y.z"` fails on in the access tests: `Key(origin='2.b', part='iii')`. */
  lemma {:induction false} ThirdSegmentOfExample()
    ensures KeysOf(MakeNestedKey("2.b.iii.x.y.z", "").path)[2] == Key("iii", "2.b")
  {
    ExamplePath();
    ExampleKeys();
  }

  lemma {:induction false} ExamplePath()
    ensures MakeNestedKey("2.b.iii.x.y.z", "").path == ["2", "b", "iii", "x", "y", "z"]
  {
    ExampleJoin();
    SplitJoin(["2", "b", "iii", "x", "y", "z"]);
    assert PathOf("2.b.iii.x.y.z", "") == Split("2.b.iii.x.y.z");
  }

  lemma {:induction false} ExampleKeys()
    ensures KeysOf(["2", "b", "iii", "x", "y", "z"])[2] == Key("iii", "2.b")
  {
    var path := ["2", "b", "iii", "x", "y", "z"];
    NonEmptyOrigins(path, 2);
    assert path[..2] == ["2", "b"];
    assert Join(["2", "b"]) == "2.b" by { JoinCons("2", ["b"]); assert ["2", "b"] == ["2"] + ["b"]; }
  }

  lemma {:induction false} ExampleJoin()
    ensures Join(["2", "b", "iii", "x", "y", "z"]) == "2.b.iii.x.y.z"
  {
    var ps := ["2", "b", "iii", "x", "y", "z"];
    assert Join(ps[5..]) == "z" by { assert ps[5..] == ["z"]; }
    assert Join(ps[4..]) == "y.z" by { JoinCons("y", ps[5..]); assert ps[4..] == ["y"] + ps[5..]; }
    assert Join(ps[3..]) == "x.y.z" by { JoinCons("x", ps[4..]); assert ps[3..] == ["x"] + ps[4..]; }
    assert Join(ps[2..]) == "iii.x.y.z" by { JoinCons("iii", ps[3..]); assert ps[2..] == ["iii"] + ps[3..]; }
    assert Join(ps[1..]) == "b.iii.x.y.z" by { JoinCons("b", ps[2..]); assert ps[1..] == ["b"] + ps[2..]; }
    JoinCons("2", ps[1..]);
    assert ps == ["2"] + ps[1..];
  }
}
