/**
  The structural matcher: compares a tree against a spec that may hold
  wildcards (`...`), regexes, datetimes, UUIDs, Decimals and nested dicts and
  lists, and reports the first mismatch with the dotted location where it
  happened.
 */
module Matcher {
  import opened Wrappers
  import opened Text
  import opened Tree
  import Assoc

  /** A spec key: a named key, or the wildcard key `...` that admits extra keys. */
  datatype SpecKey = Named(name: string) | AnyKey

  /**
    A spec: `...` matches anything; a literal scalar (None, bool, int, str,
    Decimal, UUID, datetime) is compared after normalisation; a compiled regex
    is matched against strings; dicts, lists and tuples are matched
    structurally.
   */
  datatype Spec =
    | Wildcard
    | Lit(value: Scalar)
    | Regex(pattern: string)
    | SDict(entries: seq<(SpecKey, Spec)>)
    | SList(items: seq<Spec>)
    | STuple(items: seq<Spec>)

  /**
    What `validate_match` receives as its value: the key-missing sentinel, a
    value as it is, or a dict or list wrapped in its matcher.
   */
  datatype Probe =
    | Absent
    | Plain(node: Node)
    | DictMatcher(entries: seq<(string, Node)>)
    | ListMatcher(items: seq<Node>, tuple: bool)

  /** What `arrow.get(value) != arrow.get(spec)` comes to. */
  datatype DateVerdict = SameInstant | OtherInstant | Unparseable | HostRaised

  /**
    The library calls the matcher relies on and does not define: regex
    matching, datetime normalisation, `str(value)` for values that are not
    strings, and `decimal.Decimal(text)` (None where it raises).
   */
  datatype Host = Host(
    regexMatch: (string, string) -> bool,
    instant: (Probe, string) -> DateVerdict,
    display: Probe -> string,
    decimalOf: string -> Option<real>)

  /** The `MatcherError` subclasses and their arguments. */
  datatype MatchError =
    | KeysDoNotMatch(loc: string, treeKeys: seq<string>, specKeys: seq<string>)
    | MissingRequiredKey(loc: string)
    | RegexMismatch(loc: string, spec: Spec, value: Probe)
    | DatetimeMismatch(loc: string, spec: Spec, value: Probe)
    | TypeMismatch(loc: string, spec: Spec, value: Probe)
    | ValueMismatch(loc: string, spec: Spec, value: Probe)
    | LengthTooShort(loc: string, spec: Spec, tree: seq<Node>)
    | LengthTooLong(loc: string, spec: Spec, tree: seq<Node>)
    | NoMatchFound(loc: string, spec: Spec, remaining: seq<Node>)

  /**
    Exceptions that are not `MatcherError`s and so escape every handler in the
    matcher: a regex applied to a non-string, a datetime parse failure other
    than `ParserError`, and `.copy()` on a tuple.  `CrossShapeEquality` stands
    for the final `!=` between a dict or list matcher and a spec of another
    shape, which re-enters `Matcher.__eq__`; the model stops there instead of
    following that call.
   */
  datatype Fault = RegexOnNonString | DatetimeHostError | CrossShapeEquality | TupleHasNoCopy

  /** `True`, a raised `MatcherError`, or another exception. */
  datatype Outcome = Matched | Mismatch(error: MatchError) | Escaped(fault: Fault)

  /** A working copy slot of `_matches_unordered`: still free, or overwritten with the claim marker. */
  datatype Slot = Free(node: Node) | Claimed

  /** `f"{location}.{key}" if location else str(key)`. */
  function KeyLocation(loc: string, key: string): (r: string)
    ensures loc == "" ==> r == key
    ensures loc != "" ==> |r| == |loc| + 1 + |key| && r[..|loc|] == loc && r[|loc|] == Sep && r[|loc| + 1..] == key
  {
    if loc == "" then key else loc + [Sep] + key
  }

  /** The location of list element `index`. */
  function IndexLocation(loc: string, index: nat): string {
    KeyLocation(loc, NatToString(index))
  }

  /** `Matcher.wrap_value`: under `...` the value is left as it is; dicts and lists are wrapped. */
  function WrapValue(value: Node, spec: Spec): (p: Probe)
    ensures spec.Wildcard? ==> p == Plain(value)
    ensures !spec.Wildcard? ==> (p.DictMatcher? <==> value.Dict?) && (p.ListMatcher? <==> value.List? || value.Tuple?)
    ensures !p.Absent?
  {
    if spec.Wildcard? then Plain(value)
    else
      match value
      case Dict(es) => DictMatcher(es)
      case List(xs) => ListMatcher(xs, false)
      case Tuple(xs) => ListMatcher(xs, true)
      case Leaf(_) => Plain(value)
  }

  /** The named keys of a dict spec, in order (`tuple(spec)` when `...` is not a key). */
  function SpecNames(es: seq<(SpecKey, Spec)>): (ns: seq<string>)
    ensures forall n :: n in ns <==> Named(n) in Assoc.Keys(es)
    ensures AnyKey !in Assoc.Keys(es) ==> |ns| == |es| && forall i :: 0 <= i < |es| ==> ns[i] == es[i].0.name
  {
    if es == [] then []
    else (if es[0].0.Named? then [es[0].0.name] else []) + SpecNames(es[1..])
  }

  function ToSet<T>(s: seq<T>): set<T> {
    set x | x in s
  }

  /** The guard of `DictMatcher.matches`: the key sets differ and the spec has no `...` key. */
  predicate KeysDiffer(t: seq<(string, Node)>, es: seq<(SpecKey, Spec)>) {
    AnyKey !in Assoc.Keys(es) && ToSet(Assoc.Keys(t)) != ToSet(SpecNames(es))
  }

  /** `decimal.Decimal(value)`, None where it raises. */
  function DecimalOf(value: Probe, h: Host): Option<real> {
    match value
    case Plain(Leaf(Int(i))) => Some(i as real)
    case Plain(Leaf(Bool(b))) => Some(if b then 1.0 else 0.0)
    case Plain(Leaf(Dec(d))) => Some(d)
    case Plain(Leaf(Str(s))) => h.decimalOf(s)
    case _ => None
  }

  /** `str(value)`. */
  function Display(value: Probe, h: Host): string {
    match value
    case Plain(Leaf(Str(s))) => s
    case Plain(Leaf(Uuid(hex))) => hex
    case _ => h.display(value)
  }

  /**
    Python's `value != spec` between a value that reached the last step and a
    spec; for a dict or list matcher that would call `matches(spec)`, which the
    model does not follow.
   */
  function FinalCompare(value: Probe, spec: Spec, loc: string): (o: Outcome)
    ensures o.Matched? ==> value.Plain? && value.node.Leaf? && spec.Lit? && ScalarEq(value.node.value, spec.value)
    ensures value.Plain? && value.node.Leaf? && spec.Lit? && ScalarEq(value.node.value, spec.value) ==> o.Matched?
    ensures !o.Escaped? <==> !(value.DictMatcher? || value.ListMatcher?)
    ensures !o.Matched? && !o.Escaped? ==> o == Mismatch(ValueMismatch(loc, spec, value))
  {
    match value
    case Absent => Mismatch(ValueMismatch(loc, spec, value))
    case DictMatcher(_) => Escaped(CrossShapeEquality)
    case ListMatcher(_, _) => Escaped(CrossShapeEquality)
    case Plain(n) =>
      if n.Leaf? && spec.Lit? && ScalarEq(n.value, spec.value) then Matched
      else Mismatch(ValueMismatch(loc, spec, value))
  }

  /** `Matcher.validate_match`, in the order of its cases. */
  function Validate(value: Probe, spec: Spec, loc: string, h: Host): Outcome
    decreases spec, 3
  {
    if spec.Wildcard? then Matched
    else if spec == Lit(Null) && value != Plain(Leaf(Null)) then Mismatch(TypeMismatch(loc, spec, value))
    else if value.DictMatcher? && spec.SDict? then MatchDict(value.entries, spec, loc, h)
    else if value.ListMatcher? && (spec.SList? || spec.STuple?) then MatchList(value.items, value.tuple, spec, loc, h)
    else if spec.Regex? then
      if value.Plain? && value.node.Leaf? && value.node.value.Str? then
        if h.regexMatch(spec.pattern, value.node.value.s) then Matched
        else Mismatch(RegexMismatch(loc, spec, value))
      else Escaped(RegexOnNonString)
    else if spec.Lit? && spec.value.Moment? then
      match h.instant(value, spec.value.stamp)
      case SameInstant => Matched
      case OtherInstant => Mismatch(DatetimeMismatch(loc, spec, value))
      case Unparseable => Mismatch(TypeMismatch(loc, spec, value))
      case HostRaised => Escaped(DatetimeHostError)
    else if spec.Lit? && spec.value.Uuid? then
      FinalCompare(Plain(Leaf(Str(Lower(Display(value, h))))), Lit(Str(spec.value.hex)), loc)
    else if spec.Lit? && spec.value.Dec? then
      match DecimalOf(value, h)
      case None => Mismatch(TypeMismatch(loc, spec, value))
      case Some(d) => FinalCompare(Plain(Leaf(Dec(d))), spec, loc)
    else FinalCompare(value, spec, loc)
  }

  /**
    The outcome of a loop that stops at the first check that does not pass:
    the first outcome in the sequence that is not a match, or a match.
   */
  function FirstNonMatch(os: seq<Outcome>): Outcome
    decreases |os|
  {
    if os == [] then Matched
    else if os[0].Matched? then FirstNonMatch(os[1..])
    else os[0]
  }

  /** `DictMatcher.matches`: the key-set check, then every spec key in spec order. */
  function MatchDict(t: seq<(string, Node)>, spec: Spec, loc: string, h: Host): Outcome
    requires spec.SDict?
    decreases spec, 2
  {
    if KeysDiffer(t, spec.entries) then Mismatch(KeysDoNotMatch(loc, Assoc.Keys(t), SpecNames(spec.entries)))
    else FirstNonMatch(KeyOutcomes(t, spec, loc, h))
  }

  /** The outcome of the loop body for each spec key, in spec order. */
  function KeyOutcomes(t: seq<(string, Node)>, spec: Spec, loc: string, h: Host): (os: seq<Outcome>)
    requires spec.SDict?
    ensures |os| == |spec.entries|
    decreases spec, 1
  {
    seq(|spec.entries|, k requires 0 <= k < |spec.entries| => KeyCheck(t, spec, k, loc, h))
  }

  /** One spec key: `...` is skipped; a missing key with spec `...` is a missing required key; otherwise the value is validated. */
  function KeyCheck(t: seq<(string, Node)>, spec: Spec, i: nat, loc: string, h: Host): Outcome
    requires spec.SDict? && i < |spec.entries|
    decreases spec, 0
  {
    var sub := spec.entries[i].1;
    match spec.entries[i].0
    case AnyKey => Matched
    case Named(name) =>
      match Assoc.Lookup(t, name)
      case None =>
        if sub.Wildcard? then Mismatch(MissingRequiredKey(KeyLocation(loc, name)))
        else Validate(Absent, sub, KeyLocation(loc, name), h)
      case Some(v) => Validate(WrapValue(v, sub), sub, KeyLocation(loc, name), h)
  }

  /** Whether `ListMatcher.matches` takes the unordered path: a list spec holding `...`. */
  predicate IsUnorderedSpec(spec: Spec) {
    spec.SList? && Wildcard in spec.items
  }

  /** `ListMatcher.matches`. */
  function MatchList(items: seq<Node>, tuple: bool, spec: Spec, loc: string, h: Host): Outcome
    requires spec.SList? || spec.STuple?
    decreases spec, 2
  {
    if IsUnorderedSpec(spec) then
      if tuple then Escaped(TupleHasNoCopy)
      else UnorderedFrom(InitialSlots(items), spec, 0, loc, h)
    else if |spec.items| < |items| then Mismatch(LengthTooShort(loc, spec, items))
    else if |spec.items| > |items| then Mismatch(LengthTooLong(loc, spec, items))
    else FirstNonMatch(ElementOutcomes(items, spec, loc, h))
  }

  /** The outcome of the loop body of `_matches_ordered` for each index: element i against spec i at `location.i`. */
  function ElementOutcomes(items: seq<Node>, spec: Spec, loc: string, h: Host): (os: seq<Outcome>)
    requires (spec.SList? || spec.STuple?) && |spec.items| == |items|
    ensures |os| == |items|
    decreases spec, 1
  {
    seq(|items|, i requires 0 <= i < |items| =>
      Validate(WrapValue(items[i], spec.items[i]), spec.items[i], IndexLocation(loc, i), h))
  }

  /** `values = self.wrapped_obj.copy()`. */
  function InitialSlots(items: seq<Node>): (slots: seq<Slot>)
    ensures |slots| == |items|
    ensures forall k :: 0 <= k < |items| ==> slots[k] == Free(items[k])
  {
    seq(|items|, k requires 0 <= k < |items| => Free(items[k]))
  }

  /** The values not yet claimed, in order (`remaining_values`). */
  function Remaining(slots: seq<Slot>): (r: seq<Node>)
    ensures |r| <= |slots|
    ensures forall n :: n in r <==> Free(n) in slots
    decreases |slots|
  {
    if slots == [] then []
    else (if slots[0].Free? then [slots[0].node] else []) + Remaining(slots[1..])
  }

  /** The unclaimed values of two runs of slots are those of the first run followed by those of the second. */
  lemma {:induction false} RemainingAppend(s: seq<Slot>, t: seq<Slot>)
    ensures Remaining(s + t) == Remaining(s) + Remaining(t)
    decreases |s|
  {
    if s == [] {
      assert s + t == t;
    } else {
      var st := s + t;
      assert st[0] == s[0] && st[1..] == s[1..] + t;
      RemainingAppend(s[1..], t);
      var head := if s[0].Free? then [s[0].node] else [];
      assert Remaining(st) == head + Remaining(s[1..] + t);
      assert Remaining(s) == head + Remaining(s[1..]);
    }
  }

  lemma {:induction false} RemainingSingle(x: Slot)
    ensures Remaining([x]) == if x.Free? then [x.node] else []
  {
    assert [x][1..] == [];
  }

  /** Before any claim, `remaining_values` is the whole list, in order and with its duplicates. */
  lemma {:induction false} RemainingOfInitial(items: seq<Node>)
    ensures Remaining(InitialSlots(items)) == items
    decreases |items|
  {
    if items != [] {
      assert InitialSlots(items)[1..] == InitialSlots(items[1..]);
      RemainingOfInitial(items[1..]);
      assert items == [items[0]] + items[1..];
    }
  }

  /** Claiming slot k removes exactly its value and keeps the other unclaimed values in order. */
  lemma {:induction false} RemainingAfterClaim(slots: seq<Slot>, k: nat)
    requires k < |slots| && slots[k].Free?
    ensures Remaining(slots) == Remaining(slots[..k]) + [slots[k].node] + Remaining(slots[k + 1..])
    ensures Remaining(slots[k := Claimed]) == Remaining(slots[..k]) + Remaining(slots[k + 1..])
  {
    var pre, x, post := slots[..k], slots[k], slots[k + 1..];
    assert slots == pre + ([x] + post);
    assert slots[k := Claimed] == pre + ([Claimed] + post);
    RemainingSplit(pre, x, post);
    RemainingSplit(pre, Claimed, post);
  }

  lemma {:induction false} RemainingSplit(pre: seq<Slot>, x: Slot, post: seq<Slot>)
    ensures Remaining(pre + ([x] + post)) == Remaining(pre) + (if x.Free? then [x.node] else []) + Remaining(post)
  {
    RemainingAppend(pre, [x] + post);
    RemainingAppend([x], post);
    RemainingSingle(x);
  }

  /** Result of the inner loop of `_matches_unordered`. */
  datatype ClaimResult = Found(index: nat) | NotFound | Raised(fault: Fault)

  /**
    The inner loop for spec element j from slot k on: the first free slot whose
    value validates, or NotFound; an exception other than a `MatcherError`
    leaves the loop.
   */
  function Claim(slots: seq<Slot>, spec: Spec, j: nat, k: nat, loc: string, h: Host): (r: ClaimResult)
    requires spec.SList? && j < |spec.items| && k <= |slots|
    ensures r.Found? ==> k <= r.index < |slots| && slots[r.index].Free?
    decreases spec, 0, |slots| - k
  {
    if k == |slots| then NotFound
    else if slots[k].Claimed? then Claim(slots, spec, j, k + 1, loc, h)
    else
      match Validate(WrapValue(slots[k].node, spec.items[j]), spec.items[j], loc, h)
      case Matched => Found(k)
      case Mismatch(_) => Claim(slots, spec, j, k + 1, loc, h)
      case Escaped(f) => Raised(f)
  }

  /** The outer loop of `_matches_unordered` from spec element j on. */
  function UnorderedFrom(slots: seq<Slot>, spec: Spec, j: nat, loc: string, h: Host): Outcome
    requires spec.SList? && j <= |spec.items|
    decreases spec, 1, |spec.items| - j
  {
    if j == |spec.items| then Matched
    else if spec.items[j].Wildcard? then UnorderedFrom(slots, spec, j + 1, loc, h)
    else
      match Claim(slots, spec, j, 0, loc, h)
      case Found(k) => UnorderedFrom(slots[k := Claimed], spec, j + 1, loc, h)
      case NotFound => Mismatch(NoMatchFound(loc, spec.items[j], Remaining(slots)))
      case Raised(f) => Escaped(f)
  }

  /**
    `ListMatcher._matches_unordered`: copies the values into a buffer and
    overwrites each one claimed by a spec element with the claim marker.
   */
  method MatchesUnordered(items: seq<Node>, tuple: bool, spec: Spec, loc: string, h: Host) returns (o: Outcome)
    requires IsUnorderedSpec(spec)
    ensures o == MatchList(items, tuple, spec, loc, h)
  {
    if tuple {
      return Escaped(TupleHasNoCopy);
    }
    var values := new Slot[|items|](k requires 0 <= k < |items| => Free(items[k]));
    assert values[..] == InitialSlots(items);
    var j := 0;
    while j < |spec.items|
      invariant j <= |spec.items|
      invariant UnorderedFrom(values[..], spec, j, loc, h) == MatchList(items, tuple, spec, loc, h)
    {
      var subspec := spec.items[j];
      if subspec.Wildcard? {
        j := j + 1;
        continue;
      }
      ghost var pre := values[..];
      var k := 0;
      var found := false;
      while k < values.Length && !found
        invariant k <= values.Length
        invariant !found ==> values[..] == pre && Claim(pre, spec, j, k, loc, h) == Claim(pre, spec, j, 0, loc, h)
        invariant found ==> 0 < k && Claim(pre, spec, j, 0, loc, h) == Found(k - 1) && values[..] == pre[k - 1 := Claimed]
        modifies values
      {
        if values[k].Claimed? {
          k := k + 1;
          continue;
        }
        var outcome := Validate(WrapValue(values[k].node, subspec), subspec, loc, h);
        if outcome.Escaped? {
          return outcome;
        }
        if outcome.Matched? {
          values[k] := Claimed;
          found := true;
        }
        k := k + 1;
      }
      if !found {
        return Mismatch(NoMatchFound(loc, subspec, Remaining(values[..])));
      }
      j := j + 1;
    }
    return Matched;
  }
}
