/**
  The trees the library works on: nested dicts, lists and tuples with scalar
  leaves.  A dict is an ordered association list from string keys, so that the
  key order Python exposes (`tuple(d)`, `list(d.values())`) is observable.
 */
module Tree {
  import opened Wrappers

  /**
    The scalar leaves: None, bool, int, str, and the typed scalars the matcher
    normalises: `decimal.Decimal` (by its numeric value), `uuid.UUID` (by its
    canonical lower-case text) and datetime-like objects (held as an opaque stamp).
   */
  datatype Scalar =
    | Null
    | Bool(b: bool)
    | Int(i: int)
    | Str(s: string)
    | Dec(d: real)
    | Uuid(hex: string)
    | Moment(stamp: string)

  datatype Node =
    | Leaf(value: Scalar)
    | Dict(entries: seq<(string, Node)>)
    | List(items: seq<Node>)
    | Tuple(items: seq<Node>)

  predicate IsNumeric(x: Scalar) {
    x.Bool? || x.Int? || x.Dec?
  }

  /** The numeric value Python compares `bool`, `int` and `Decimal` by. */
  function NumericValue(x: Scalar): real
    requires IsNumeric(x)
  {
    match x
    case Bool(b) => if b then 1.0 else 0.0
    case Int(i) => i as real
    case Dec(d) => d
  }

  /**
    Python's `==` between two scalars: numbers compare by value across bool,
    int and Decimal; every other kind only equals itself.
   */
  function ScalarEq(x: Scalar, y: Scalar): (r: bool)
    ensures x == y ==> r
    ensures r && !IsNumeric(x) ==> x == y
    ensures IsNumeric(x) && IsNumeric(y) ==> (r <==> NumericValue(x) == NumericValue(y))
    ensures IsNumeric(x) != IsNumeric(y) ==> !r
  {
    if IsNumeric(x) && IsNumeric(y) then NumericValue(x) == NumericValue(y)
    else x == y
  }

  /** Scalar equality is symmetric. */
  lemma {:induction false} ScalarEqSymmetric(x: Scalar, y: Scalar)
    ensures ScalarEq(x, y) == ScalarEq(y, x)
  {
  }

  /** A size measure: every child is smaller than its parent, and `{}` is smaller than any list. */
  function Size(n: Node): (r: nat)
    ensures n.Dict? ==> r >= 1
    ensures n.List? || n.Tuple? ==> r >= 2
    decreases n, 1
  {
    match n
    case Leaf(_) => 1
    case Dict(es) => 1 + EntriesSize(n, 0)
    case List(xs) => 2 + ItemsSize(n, 0)
    case Tuple(xs) => 2 + ItemsSize(n, 0)
  }

  function EntriesSize(n: Node, i: nat): nat
    requires n.Dict? && i <= |n.entries|
    decreases n, 0, |n.entries| - i
  {
    if i == |n.entries| then 0 else Size(n.entries[i].1) + EntriesSize(n, i + 1)
  }

  function ItemsSize(n: Node, i: nat): nat
    requires (n.List? || n.Tuple?) && i <= |n.items|
    decreases n, 0, |n.items| - i
  {
    if i == |n.items| then 0 else Size(n.items[i]) + ItemsSize(n, i + 1)
  }

  lemma {:induction false} EntriesSizeBound(n: Node, i: nat, j: nat)
    requires n.Dict? && i <= j < |n.entries|
    ensures Size(n.entries[j].1) <= EntriesSize(n, i)
    decreases j - i
  {
    if i < j { EntriesSizeBound(n, i + 1, j); }
  }

  lemma {:induction false} ItemsSizeBound(n: Node, i: nat, j: nat)
    requires (n.List? || n.Tuple?) && i <= j < |n.items|
    ensures Size(n.items[j]) <= ItemsSize(n, i)
    decreases j - i
  {
    if i < j { ItemsSizeBound(n, i + 1, j); }
  }

  /** A value in a dict is smaller than the dict. */
  lemma {:induction false} EntrySmaller(n: Node, j: nat)
    requires n.Dict? && j < |n.entries|
    ensures Size(n.entries[j].1) < Size(n)
  {
    EntriesSizeBound(n, 0, j);
  }

  /** An element of a list or tuple is smaller than the sequence. */
  lemma {:induction false} ItemSmaller(n: Node, j: nat)
    requires (n.List? || n.Tuple?) && j < |n.items|
    ensures Size(n.items[j]) < Size(n)
  {
    ItemsSizeBound(n, 0, j);
  }
}
