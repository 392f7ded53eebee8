/**
  What the matcher promises: wildcards, the key-set rule, the first failing
  key or element, length enforcement for ordered specs, and the greedy
  unordered search.
 */
module MatcherLaws {
  import opened Wrappers
  import opened Text
  import opened Tree
  import opened Matcher
  import Assoc

  /** `...` matches every value, present or missing. */
  lemma {:induction false} WildcardMatchesAnything(value: Probe, loc: string, h: Host)
    ensures Validate(value, Wildcard, loc, h) == Matched
  {
  }

  /** A `None` spec matches exactly the value None; anything else (the missing-key sentinel included) is a type mismatch. */
  lemma {:induction false} NoneSpecMatchesOnlyNone(value: Probe, loc: string, h: Host)
    ensures Validate(value, Lit(Null), loc, h) == Matched <==> value == Plain(Leaf(Null))
    ensures value != Plain(Leaf(Null)) ==> Validate(value, Lit(Null), loc, h) == Mismatch(TypeMismatch(loc, Lit(Null), value))
  {
  }

  /**
    A UUID spec compares `str(value).lower()` with the UUID's canonical text,
    and a mismatch reports both sides in that normalised form.
   */
  lemma {:induction false} UuidRule(value: Probe, hex: string, loc: string, h: Host)
    ensures Validate(value, Lit(Uuid(hex)), loc, h).Matched? <==> Lower(Display(value, h)) == hex
    ensures !Validate(value, Lit(Uuid(hex)), loc, h).Matched? ==>
      Validate(value, Lit(Uuid(hex)), loc, h) == Mismatch(ValueMismatch(loc, Lit(Str(hex)), Plain(Leaf(Str(Lower(Display(value, h)))))))
  {
  }

  /** A string matches a UUID spec whatever the case of its letters. */
  lemma {:induction false} UuidIgnoresCase(s: string, hex: string, loc: string, h: Host)
    ensures Validate(Plain(Leaf(Str(s))), Lit(Uuid(hex)), loc, h).Matched? <==> Lower(s) == hex
  {
    UuidRule(Plain(Leaf(Str(s))), hex, loc, h);
  }

  /**
    A Decimal spec converts the value with `decimal.Decimal` first: a failed
    conversion is a type mismatch carrying the original value, otherwise the
    numbers are compared and a mismatch carries the converted value.
   */
  lemma {:induction false} DecimalRule(value: Probe, d: real, loc: string, h: Host)
    ensures DecimalOf(value, h).None? ==> Validate(value, Lit(Dec(d)), loc, h) == Mismatch(TypeMismatch(loc, Lit(Dec(d)), value))
    ensures DecimalOf(value, h) == Some(d) ==> Validate(value, Lit(Dec(d)), loc, h) == Matched
    ensures DecimalOf(value, h).Some? && DecimalOf(value, h).value != d ==>
      Validate(value, Lit(Dec(d)), loc, h) == Mismatch(ValueMismatch(loc, Lit(Dec(d)), Plain(Leaf(Dec(DecimalOf(value, h).value)))))
  {
  }

  /** A string the host converts to `e` matches a Decimal spec exactly when `e` is its value. */
  lemma {:induction false} DecimalOfString(s: string, d: real, e: real, loc: string, h: Host)
    requires h.decimalOf(s) == Some(e)
    ensures Validate(Plain(Leaf(Str(s))), Lit(Dec(d)), loc, h) ==
      if e == d then Matched else Mismatch(ValueMismatch(loc, Lit(Dec(d)), Plain(Leaf(Dec(e)))))
  {
    DecimalRule(Plain(Leaf(Str(s))), d, loc, h);
  }

  /**
    `{"amount": "123.45"}` against `{"amount": Decimal("234.56")}` reports the
    converted value; text that does not convert and None are type mismatches
    carrying the original value.
   */
  lemma {:induction false} DecimalMismatchReports(h: Host)
    requires h.decimalOf("123.45") == Some(123.45) && h.decimalOf("not a number").None?
    ensures Validate(Plain(Leaf(Str("123.45"))), Lit(Dec(234.56)), "amount", h) ==
      Mismatch(ValueMismatch("amount", Lit(Dec(234.56)), Plain(Leaf(Dec(123.45)))))
    ensures Validate(Plain(Leaf(Str("not a number"))), Lit(Dec(234.56)), "amount", h) ==
      Mismatch(TypeMismatch("amount", Lit(Dec(234.56)), Plain(Leaf(Str("not a number")))))
    ensures Validate(Plain(Leaf(Null)), Lit(Dec(234.56)), "amount", h) ==
      Mismatch(TypeMismatch("amount", Lit(Dec(234.56)), Plain(Leaf(Null))))
  {
    DecimalOfString("123.45", 234.56, 123.45, "amount", h);
    DecimalRule(Plain(Leaf(Str("not a number"))), 234.56, "amount", h);
    DecimalRule(Plain(Leaf(Null)), 234.56, "amount", h);
  }

  /** `{...: ...}` matches every dict. */
  lemma {:induction false} AnyKeyAdmitsEveryDict(t: seq<(string, Node)>, loc: string, h: Host)
    ensures MatchDict(t, SDict([(AnyKey, Wildcard)]), loc, h) == Matched
  {
    var spec := SDict([(AnyKey, Wildcard)]);
    assert Assoc.Keys(spec.entries) == [AnyKey];
    var os := KeyOutcomes(t, spec, loc, h);
    assert os == [KeyCheck(t, spec, 0, loc, h)];
    assert KeyCheck(t, spec, 0, loc, h) == Matched;
    assert FirstNonMatch(os) == FirstNonMatch(os[1..]);
  }

  /**
    Without a `...` key, a dict matches only if its key set equals the spec's,
    and when the sets differ the error carries the location, the tree's keys
    and the spec's keys, each in order.
   */
  lemma {:induction false} KeySetsMustAgree(t: seq<(string, Node)>, spec: Spec, loc: string, h: Host)
    requires spec.SDict? && AnyKey !in Assoc.Keys(spec.entries)
    ensures MatchDict(t, spec, loc, h).Matched? ==> ToSet(Assoc.Keys(t)) == ToSet(SpecNames(spec.entries))
    ensures ToSet(Assoc.Keys(t)) != ToSet(SpecNames(spec.entries)) ==>
      MatchDict(t, spec, loc, h) == Mismatch(KeysDoNotMatch(loc, Assoc.Keys(t), SpecNames(spec.entries)))
  {
    if ToSet(Assoc.Keys(t)) == ToSet(SpecNames(spec.entries)) {
      assert !KeysDiffer(t, spec.entries);
    }
  }

  /** A `...` key switches the key-set check off: the outcome is that of the per-key checks alone. */
  lemma {:induction false} AnyKeySkipsKeySetCheck(t: seq<(string, Node)>, spec: Spec, loc: string, h: Host)
    requires spec.SDict? && AnyKey in Assoc.Keys(spec.entries)
    ensures MatchDict(t, spec, loc, h) == FirstNonMatch(KeyOutcomes(t, spec, loc, h))
  {
  }

  /** A stop-at-first-failure loop passes exactly when every check passes. */
  lemma {:induction false} FirstNonMatchAll(os: seq<Outcome>)
    ensures FirstNonMatch(os).Matched? <==> forall k :: 0 <= k < |os| ==> os[k].Matched?
    decreases |os|
  {
    if os != [] {
      FirstNonMatchAll(os[1..]);
      assert forall k :: 1 <= k < |os| ==> os[k] == os[1..][k - 1];
    }
  }

  /** A stop-at-first-failure loop reports the first check that does not pass. */
  lemma {:induction false} FirstNonMatchIsFirst(os: seq<Outcome>)
    requires !FirstNonMatch(os).Matched?
    ensures exists k :: (0 <= k < |os| && os[k] == FirstNonMatch(os) && forall k' :: 0 <= k' < k ==> os[k'].Matched?)
    decreases |os|
  {
    if os[0].Matched? {
      FirstNonMatchIsFirst(os[1..]);
      var k :| 0 <= k < |os[1..]| && os[1..][k] == FirstNonMatch(os[1..]) && forall k' :: 0 <= k' < k ==> os[1..][k'].Matched?;
      assert os[k + 1] == os[1..][k];
      assert forall k' :: 0 <= k' < k + 1 ==> os[k'].Matched? by {
        forall k' | 0 <= k' < k + 1 ensures os[k'].Matched? {
          if k' > 0 { assert os[k'] == os[1..][k' - 1]; }
        }
      }
    } else {
      assert os[0] == FirstNonMatch(os);
    }
  }

  /**
    Once the key sets agree, a dict matches exactly when every spec key's check
    passes, and otherwise reports the first spec key, in spec order, whose
    check does not pass.
   */
  lemma {:induction false} DictReportsFirstFailingKey(t: seq<(string, Node)>, spec: Spec, loc: string, h: Host)
    requires spec.SDict? && !KeysDiffer(t, spec.entries)
    ensures MatchDict(t, spec, loc, h).Matched? <==>
      forall k :: 0 <= k < |spec.entries| ==> KeyCheck(t, spec, k, loc, h).Matched?
    ensures !MatchDict(t, spec, loc, h).Matched? ==>
      exists k :: (0 <= k < |spec.entries| && KeyCheck(t, spec, k, loc, h) == MatchDict(t, spec, loc, h)
        && forall k' :: 0 <= k' < k ==> KeyCheck(t, spec, k', loc, h).Matched?)
  {
    var os := KeyOutcomes(t, spec, loc, h);
    var r := MatchDict(t, spec, loc, h);
    assert r == FirstNonMatch(os);
    FirstNonMatchAll(os);
    if r.Matched? {
      forall k | 0 <= k < |spec.entries| ensures KeyCheck(t, spec, k, loc, h).Matched? {
        KeyOutcomeAt(t, spec, loc, h, k);
      }
    } else {
      FirstNonMatchIsFirst(os);
      var k :| 0 <= k < |os| && os[k] == FirstNonMatch(os) && forall k' :: 0 <= k' < k ==> os[k'].Matched?;
      KeyOutcomeAt(t, spec, loc, h, k);
      assert KeyCheck(t, spec, k, loc, h) == r && !KeyCheck(t, spec, k, loc, h).Matched?;
      forall k' | 0 <= k' < k ensures KeyCheck(t, spec, k', loc, h).Matched? {
        KeyOutcomeAt(t, spec, loc, h, k');
      }
      assert !(forall k :: 0 <= k < |spec.entries| ==> KeyCheck(t, spec, k, loc, h).Matched?);
    }
  }

  lemma {:induction false} KeyOutcomeAt(t: seq<(string, Node)>, spec: Spec, loc: string, h: Host, k: nat)
    requires spec.SDict? && k < |spec.entries|
    ensures KeyOutcomes(t, spec, loc, h)[k] == KeyCheck(t, spec, k, loc, h)
  {
  }

  /** `Validate` on the missing-key sentinel never reports a missing required key: only the key loop does. */
  lemma {:induction false} AbsentNeverMissingKey(sub: Spec, loc: string, h: Host)
    ensures !(Validate(Absent, sub, loc, h).Mismatch? && Validate(Absent, sub, loc, h).error.MissingRequiredKey?)
  {
  }

  /**
    A spec key with value `...` requires the key: the check passes when the
    key is present and raises MissingRequiredKey at `location.key` when it is
    missing; a missing key with any other spec value is validated as the
    sentinel and never raises that error.
   */
  lemma {:induction false} RequiredKeyRule(t: seq<(string, Node)>, spec: Spec, i: nat, loc: string, h: Host)
    requires spec.SDict? && i < |spec.entries| && spec.entries[i].0.Named?
    ensures var name := spec.entries[i].0.name;
      spec.entries[i].1.Wildcard? && name !in Assoc.Keys(t) ==>
        KeyCheck(t, spec, i, loc, h) == Mismatch(MissingRequiredKey(KeyLocation(loc, name)))
    ensures spec.entries[i].1.Wildcard? && spec.entries[i].0.name in Assoc.Keys(t) ==> KeyCheck(t, spec, i, loc, h) == Matched
    ensures !spec.entries[i].1.Wildcard? && spec.entries[i].0.name !in Assoc.Keys(t) ==>
      KeyCheck(t, spec, i, loc, h) == Validate(Absent, spec.entries[i].1, KeyLocation(loc, spec.entries[i].0.name), h)
      && !(KeyCheck(t, spec, i, loc, h).Mismatch? && KeyCheck(t, spec, i, loc, h).error.MissingRequiredKey?)
  {
    var name := spec.entries[i].0.name;
    var sub := spec.entries[i].1;
    if name !in Assoc.Keys(t) && !sub.Wildcard? {
      AbsentNeverMissingKey(sub, KeyLocation(loc, name), h);
    }
  }

  /** The `...: ...` entry is skipped whatever the dict holds. */
  lemma {:induction false} AnyKeyEntryIsSkipped(t: seq<(string, Node)>, spec: Spec, i: nat, loc: string, h: Host)
    requires spec.SDict? && i < |spec.entries| && spec.entries[i].0.AnyKey?
    ensures KeyCheck(t, spec, i, loc, h) == Matched
  {
  }

  /**
    A tuple spec, or a list spec without `...`, is matched in order: a length
    that differs raises LengthTooShort or LengthTooLong with the spec and the
    tree list, and equal lengths match exactly when every element matches its
    spec element at `location.index`, the first failing index being reported.
   */
  lemma {:induction false} OrderedListRule(items: seq<Node>, tuple: bool, spec: Spec, loc: string, h: Host)
    requires (spec.SList? || spec.STuple?) && !IsUnorderedSpec(spec)
    ensures |spec.items| < |items| ==> MatchList(items, tuple, spec, loc, h) == Mismatch(LengthTooShort(loc, spec, items))
    ensures |spec.items| > |items| ==> MatchList(items, tuple, spec, loc, h) == Mismatch(LengthTooLong(loc, spec, items))
    ensures MatchList(items, tuple, spec, loc, h).Matched? <==>
      (|spec.items| == |items| && forall i :: 0 <= i < |items| ==>
        Validate(WrapValue(items[i], spec.items[i]), spec.items[i], IndexLocation(loc, i), h).Matched?)
    ensures |spec.items| == |items| && !MatchList(items, tuple, spec, loc, h).Matched? ==>
      exists i :: (0 <= i < |items|
        && Validate(WrapValue(items[i], spec.items[i]), spec.items[i], IndexLocation(loc, i), h) == MatchList(items, tuple, spec, loc, h)
        && forall i' :: 0 <= i' < i ==>
          Validate(WrapValue(items[i'], spec.items[i']), spec.items[i'], IndexLocation(loc, i'), h).Matched?)
  {
    if |spec.items| == |items| {
      var os := ElementOutcomes(items, spec, loc, h);
      assert MatchList(items, tuple, spec, loc, h) == FirstNonMatch(os);
      assert forall i :: 0 <= i < |os| ==>
        os[i] == Validate(WrapValue(items[i], spec.items[i]), spec.items[i], IndexLocation(loc, i), h);
      FirstNonMatchAll(os);
      if !FirstNonMatch(os).Matched? {
        FirstNonMatchIsFirst(os);
        var i :| 0 <= i < |os| && os[i] == FirstNonMatch(os) && forall i' :: 0 <= i' < i ==> os[i'].Matched?;
        assert os[i] == Validate(WrapValue(items[i], spec.items[i]), spec.items[i], IndexLocation(loc, i), h);
      }
    }
  }

  /** A list spec holding `...` is matched in any order; applied to a tuple, `.copy()` raises. */
  lemma {:induction false} UnorderedListRule(items: seq<Node>, spec: Spec, loc: string, h: Host)
    requires IsUnorderedSpec(spec)
    ensures MatchList(items, true, spec, loc, h) == Escaped(TupleHasNoCopy)
    ensures MatchList(items, false, spec, loc, h) == UnorderedFrom(InitialSlots(items), spec, 0, loc, h)
  {
  }

  /** The outcome of validating the value in a free slot against spec element j. */
  function SlotOutcome(slots: seq<Slot>, spec: Spec, j: nat, y: nat, loc: string, h: Host): Outcome
    requires spec.SList? && j < |spec.items| && y < |slots| && slots[y].Free?
  {
    Validate(WrapValue(slots[y].node, spec.items[j]), spec.items[j], loc, h)
  }

  /**
    The inner loop is a first-fit search: it claims the first free slot whose
    value validates, passing over the values that raise a `MatcherError`;
    it finds nothing exactly when every free value raises one; and an
    exception of another kind stops the search at the value that raised it.
   */
  lemma {:induction false} ClaimIsFirstFit(slots: seq<Slot>, spec: Spec, j: nat, k: nat, loc: string, h: Host)
    requires spec.SList? && j < |spec.items| && k <= |slots|
    ensures Claim(slots, spec, j, k, loc, h).Found? ==>
      var x := Claim(slots, spec, j, k, loc, h).index;
      SlotOutcome(slots, spec, j, x, loc, h).Matched?
      && forall y :: k <= y < x && slots[y].Free? ==> SlotOutcome(slots, spec, j, y, loc, h).Mismatch?
    ensures Claim(slots, spec, j, k, loc, h).NotFound? <==>
      forall y :: k <= y < |slots| && slots[y].Free? ==> SlotOutcome(slots, spec, j, y, loc, h).Mismatch?
    ensures Claim(slots, spec, j, k, loc, h).Raised? ==>
      exists x :: (k <= x < |slots| && slots[x].Free?
        && SlotOutcome(slots, spec, j, x, loc, h) == Escaped(Claim(slots, spec, j, k, loc, h).fault))
    decreases |slots| - k
  {
    if k < |slots| {
      ClaimIsFirstFit(slots, spec, j, k + 1, loc, h);
      if slots[k].Free? {
        var o := SlotOutcome(slots, spec, j, k, loc, h);
        assert o == Validate(WrapValue(slots[k].node, spec.items[j]), spec.items[j], loc, h);
        if o.Mismatch? {
          assert Claim(slots, spec, j, k, loc, h) == Claim(slots, spec, j, k + 1, loc, h);
        }
      }
    }
  }

  /**
    An assignment for an unordered match: each spec element other than `...`
    gets a position in the tree list whose value validates against it at the
    list's own location, and no two of them share a position.
   */
  ghost predicate IsAssignment(items: seq<Node>, spec: Spec, f: seq<int>, loc: string, h: Host)
    requires spec.SList?
  {
    |f| == |spec.items|
    && (forall j :: 0 <= j < |f| && !spec.items[j].Wildcard? ==>
          0 <= f[j] < |items| && Validate(WrapValue(items[f[j]], spec.items[j]), spec.items[j], loc, h).Matched?)
    && (forall j1, j2 :: 0 <= j1 < j2 < |f| && !spec.items[j1].Wildcard? && !spec.items[j2].Wildcard? ==> f[j1] != f[j2])
  }

  /** The positions the greedy search claims from spec element j on, and what they satisfy. */
  lemma {:induction false} UnorderedClaims(items: seq<Node>, slots: seq<Slot>, spec: Spec, j: nat, loc: string, h: Host)
    returns (f: seq<int>)
    requires spec.SList? && j <= |spec.items| && |slots| == |items|
    requires forall k :: 0 <= k < |slots| && slots[k].Free? ==> slots[k].node == items[k]
    requires UnorderedFrom(slots, spec, j, loc, h) == Matched
    ensures |f| == |spec.items| - j
    ensures forall d :: 0 <= d < |f| && !spec.items[j + d].Wildcard? ==>
      0 <= f[d] < |items| && slots[f[d]].Free?
      && Validate(WrapValue(items[f[d]], spec.items[j + d]), spec.items[j + d], loc, h).Matched?
    ensures forall d1, d2 :: 0 <= d1 < d2 < |f| && !spec.items[j + d1].Wildcard? && !spec.items[j + d2].Wildcard? ==>
      f[d1] != f[d2]
    decreases |spec.items| - j
  {
    if j == |spec.items| {
      f := [];
    } else if spec.items[j].Wildcard? {
      assert UnorderedFrom(slots, spec, j + 1, loc, h) == Matched;
      var rest := UnorderedClaims(items, slots, spec, j + 1, loc, h);
      f := [0] + rest;
      SkipStep(items, slots, spec, j, rest, f, loc, h);
    } else {
      var k := ClaimedSlot(items, slots, spec, j, loc, h);
      var next := slots[k := Claimed];
      var rest := UnorderedClaims(items, next, spec, j + 1, loc, h);
      f := [k] + rest;
      ClaimStep(items, slots, spec, j, k, rest, f, loc, h);
    }
  }

  /** A spec element that is not `...` in a search that succeeds claims a free slot whose value validates. */
  lemma {:induction false} ClaimedSlot(items: seq<Node>, slots: seq<Slot>, spec: Spec, j: nat, loc: string, h: Host) returns (k: nat)
    requires spec.SList? && j < |spec.items| && !spec.items[j].Wildcard? && |slots| == |items|
    requires forall x :: 0 <= x < |slots| && slots[x].Free? ==> slots[x].node == items[x]
    requires UnorderedFrom(slots, spec, j, loc, h) == Matched
    ensures k < |slots| && slots[k].Free? && slots[k].node == items[k]
    ensures Validate(WrapValue(slots[k].node, spec.items[j]), spec.items[j], loc, h).Matched?
    ensures UnorderedFrom(slots[k := Claimed], spec, j + 1, loc, h) == Matched
    ensures forall x :: 0 <= x < |slots| && slots[k := Claimed][x].Free? ==> slots[k := Claimed][x].node == items[x]
  {
    ClaimIsFirstFit(slots, spec, j, 0, loc, h);
    k := Claim(slots, spec, j, 0, loc, h).index;
    assert SlotOutcome(slots, spec, j, k, loc, h).Matched?;
  }

  /** A `...` element claims nothing: it is put in front of the claims for the elements after it with a dummy position. */
  lemma {:induction false} SkipStep(items: seq<Node>, slots: seq<Slot>, spec: Spec, j: nat, rest: seq<int>, f: seq<int>, loc: string, h: Host)
    requires spec.SList? && j < |spec.items| && |slots| == |items| && spec.items[j].Wildcard?
    requires |rest| == |spec.items| - (j + 1)
    requires forall d :: 0 <= d < |rest| && !spec.items[j + 1 + d].Wildcard? ==>
      0 <= rest[d] < |items| && slots[rest[d]].Free?
      && Validate(WrapValue(items[rest[d]], spec.items[j + 1 + d]), spec.items[j + 1 + d], loc, h).Matched?
    requires forall d1, d2 :: 0 <= d1 < d2 < |rest| && !spec.items[j + 1 + d1].Wildcard? && !spec.items[j + 1 + d2].Wildcard? ==>
      rest[d1] != rest[d2]
    requires f == [0] + rest
    ensures (forall d :: 0 <= d < |f| && !spec.items[j + d].Wildcard? ==>
        0 <= f[d] < |items| && slots[f[d]].Free?
        && Validate(WrapValue(items[f[d]], spec.items[j + d]), spec.items[j + d], loc, h).Matched?)
      && (forall d1, d2 :: 0 <= d1 < d2 < |f| && !spec.items[j + d1].Wildcard? && !spec.items[j + d2].Wildcard? ==>
        f[d1] != f[d2])
  {
    forall d | 0 <= d < |f| && !spec.items[j + d].Wildcard?
      ensures 0 <= f[d] < |items| && slots[f[d]].Free?
      ensures Validate(WrapValue(items[f[d]], spec.items[j + d]), spec.items[j + d], loc, h).Matched?
    {
      assert d > 0;
      assert f[d] == rest[d - 1];
      assert spec.items[j + 1 + (d - 1)] == spec.items[j + d];
    }
    forall d1, d2 | 0 <= d1 < d2 < |f| && !spec.items[j + d1].Wildcard? && !spec.items[j + d2].Wildcard?
      ensures f[d1] != f[d2]
    {
      assert d1 > 0;
      assert f[d1] == rest[d1 - 1] && f[d2] == rest[d2 - 1];
      assert spec.items[j + 1 + (d1 - 1)] == spec.items[j + d1];
      assert spec.items[j + 1 + (d2 - 1)] == spec.items[j + d2];
    }
  }

  /** Putting the slot claimed for spec element j in front of the claims for the elements after it. */
  lemma {:induction false} ClaimStep(items: seq<Node>, slots: seq<Slot>, spec: Spec, j: nat, k: nat, rest: seq<int>, f: seq<int>, loc: string, h: Host)
    requires spec.SList? && j < |spec.items| && |slots| == |items| && !spec.items[j].Wildcard?
    requires k < |slots| && slots[k].Free? && slots[k].node == items[k]
    requires Validate(WrapValue(slots[k].node, spec.items[j]), spec.items[j], loc, h).Matched?
    requires |rest| == |spec.items| - (j + 1)
    requires forall d :: 0 <= d < |rest| && !spec.items[j + 1 + d].Wildcard? ==>
      0 <= rest[d] < |items| && slots[k := Claimed][rest[d]].Free?
      && Validate(WrapValue(items[rest[d]], spec.items[j + 1 + d]), spec.items[j + 1 + d], loc, h).Matched?
    requires forall d1, d2 :: 0 <= d1 < d2 < |rest| && !spec.items[j + 1 + d1].Wildcard? && !spec.items[j + 1 + d2].Wildcard? ==>
      rest[d1] != rest[d2]
    requires f == [k] + rest
    ensures (forall d :: 0 <= d < |f| && !spec.items[j + d].Wildcard? ==>
        0 <= f[d] < |items| && slots[f[d]].Free?
        && Validate(WrapValue(items[f[d]], spec.items[j + d]), spec.items[j + d], loc, h).Matched?)
      && (forall d1, d2 :: 0 <= d1 < d2 < |f| && !spec.items[j + d1].Wildcard? && !spec.items[j + d2].Wildcard? ==>
        f[d1] != f[d2])
  {
    var next := slots[k := Claimed];
    forall d | 0 <= d < |f| && !spec.items[j + d].Wildcard?
      ensures 0 <= f[d] < |items| && slots[f[d]].Free?
      ensures Validate(WrapValue(items[f[d]], spec.items[j + d]), spec.items[j + d], loc, h).Matched?
      ensures d > 0 ==> f[d] != k
    {
      if d > 0 {
        assert f[d] == rest[d - 1];
        assert spec.items[j + 1 + (d - 1)] == spec.items[j + d];
        assert next[rest[d - 1]].Free?;
      }
    }
    forall d1, d2 | 0 <= d1 < d2 < |f| && !spec.items[j + d1].Wildcard? && !spec.items[j + d2].Wildcard?
      ensures f[d1] != f[d2]
    {
      assert f[d2] == rest[d2 - 1];
      if d1 > 0 {
        assert f[d1] == rest[d1 - 1];
        assert spec.items[j + 1 + (d1 - 1)] == spec.items[j + d1];
        assert spec.items[j + 1 + (d2 - 1)] == spec.items[j + d2];
      }
    }
  }

  /**
    Soundness of the unordered match: when it succeeds, the spec elements
    other than `...` can be given distinct tree elements that each validate.
   */
  lemma {:induction false} UnorderedMatchIsAnAssignment(items: seq<Node>, spec: Spec, loc: string, h: Host)
    requires IsUnorderedSpec(spec) && MatchList(items, false, spec, loc, h) == Matched
    ensures exists f :: IsAssignment(items, spec, f, loc, h)
  {
    var f := UnorderedClaims(items, InitialSlots(items), spec, 0, loc, h);
    assert IsAssignment(items, spec, f, loc, h);
  }

  lemma {:induction false} ClaimIgnoresLaterSlots(slots: seq<Slot>, extra: seq<Slot>, spec: Spec, j: nat, k: nat, loc: string, h: Host)
    requires spec.SList? && j < |spec.items| && k <= |slots|
    requires Claim(slots, spec, j, k, loc, h).Found?
    ensures Claim(slots + extra, spec, j, k, loc, h) == Claim(slots, spec, j, k, loc, h)
    decreases |slots| - k
  {
    assert (slots + extra)[k] == slots[k];
    if slots[k].Claimed? {
      ClaimIgnoresLaterSlots(slots, extra, spec, j, k + 1, loc, h);
    } else if Validate(WrapValue(slots[k].node, spec.items[j]), spec.items[j], loc, h).Mismatch? {
      ClaimIgnoresLaterSlots(slots, extra, spec, j, k + 1, loc, h);
    }
  }

  lemma {:induction false} UnorderedIgnoresLaterSlots(slots: seq<Slot>, extra: seq<Slot>, spec: Spec, j: nat, loc: string, h: Host)
    requires spec.SList? && j <= |spec.items|
    requires UnorderedFrom(slots, spec, j, loc, h) == Matched
    ensures UnorderedFrom(slots + extra, spec, j, loc, h) == Matched
    decreases |spec.items| - j
  {
    if j < |spec.items| {
      if spec.items[j].Wildcard? {
        UnorderedIgnoresLaterSlots(slots, extra, spec, j + 1, loc, h);
      } else {
        var k := Claim(slots, spec, j, 0, loc, h).index;
        ClaimIgnoresLaterSlots(slots, extra, spec, j, 0, loc, h);
        assert (slots + extra)[k := Claimed] == slots[k := Claimed] + extra;
        UnorderedIgnoresLaterSlots(slots[k := Claimed], extra, spec, j + 1, loc, h);
      }
    }
  }

  /**
    Elements appended to the tree list never break an unordered match: the
    first-fit search claims the same positions as before and never reaches
    the new ones.
   */
  lemma {:induction false} ExtraElementsKeepUnorderedMatch(items: seq<Node>, more: seq<Node>, spec: Spec, loc: string, h: Host)
    requires IsUnorderedSpec(spec) && MatchList(items, false, spec, loc, h) == Matched
    ensures MatchList(items + more, false, spec, loc, h) == Matched
  {
    assert InitialSlots(items + more) == InitialSlots(items) + InitialSlots(more);
    UnorderedIgnoresLaterSlots(InitialSlots(items), InitialSlots(more), spec, 0, loc, h);
  }

  /**
    From the matcher tests: `["index0", "index1", "index2"]` against
    `["index2", "index4", ...]` at location "3" claims "index2" and then finds
    no value for "index4", reporting the two values left unclaimed.
   */
  lemma {:induction false} NoMatchFoundReportsUnclaimed(h: Host)
    ensures MatchList([Leaf(Str("index0")), Leaf(Str("index1")), Leaf(Str("index2"))], false,
      SList([Lit(Str("index2")), Lit(Str("index4")), Wildcard]), "3", h)
      == Mismatch(NoMatchFound("3", Lit(Str("index4")), [Leaf(Str("index0")), Leaf(Str("index1"))]))
  {
    var items := [Leaf(Str("index0")), Leaf(Str("index1")), Leaf(Str("index2"))];
    var spec := SList([Lit(Str("index2")), Lit(Str("index4")), Wildcard]);
    assert IsUnorderedSpec(spec) by { assert spec.items[2] == Wildcard; }
    ExampleFirstClaim(h);
    ExampleSecondClaim(h);
    ExampleRemaining();
    assert InitialSlots(items)[2 := Claimed] == [Free(Leaf(Str("index0"))), Free(Leaf(Str("index1"))), Claimed];
  }

  /**
    The search is greedy, not a full matching: `[[...], [1], ...]` against
    `[[1], []]` has an assignment (`[...]` to `[]`, `[1]` to `[1]`), yet the
    first spec element claims `[1]` and the second then finds nothing.
   */
  lemma {:induction false} GreedySearchMissesAnAssignment(h: Host)
    ensures IsAssignment([List([Leaf(Int(1))]), List([])], SList([SList([Wildcard]), SList([Lit(Int(1))]), Wildcard]), [1, 0, 0], "", h)
    ensures MatchList([List([Leaf(Int(1))]), List([])], false, SList([SList([Wildcard]), SList([Lit(Int(1))]), Wildcard]), "", h)
      == Mismatch(NoMatchFound("", SList([Lit(Int(1))]), [List([])]))
  {
    GreedyAssignment(h);
    GreedyFailure(h);
  }

  lemma {:induction false} GreedyAssignment(h: Host)
    ensures IsAssignment([List([Leaf(Int(1))]), List([])], SList([SList([Wildcard]), SList([Lit(Int(1))]), Wildcard]), [1, 0, 0], "", h)
  {
    var items := [List([Leaf(Int(1))]), List([])];
    var spec := SList([SList([Wildcard]), SList([Lit(Int(1))]), Wildcard]);
    GreedyPieces(h);
    assert Validate(WrapValue(items[1], spec.items[0]), spec.items[0], "", h).Matched?;
    assert Validate(WrapValue(items[0], spec.items[1]), spec.items[1], "", h).Matched?;
  }

  lemma {:induction false} GreedyFailure(h: Host)
    ensures MatchList([List([Leaf(Int(1))]), List([])], false, SList([SList([Wildcard]), SList([Lit(Int(1))]), Wildcard]), "", h)
      == Mismatch(NoMatchFound("", SList([Lit(Int(1))]), [List([])]))
  {
    var items := [List([Leaf(Int(1))]), List([])];
    var spec := SList([SList([Wildcard]), SList([Lit(Int(1))]), Wildcard]);
    assert IsUnorderedSpec(spec) by { assert spec.items[2] == Wildcard; }
    GreedyPieces(h);
    var slots := [Free(items[0]), Free(items[1])];
    assert InitialSlots(items) == slots;
    assert Claim(slots, spec, 0, 0, "", h) == Found(0);
    var next := [Claimed, Free(items[1])];
    assert slots[0 := Claimed] == next;
    assert Claim(next, spec, 1, 1, "", h) == NotFound;
    assert Claim(next, spec, 1, 0, "", h) == NotFound;
    assert Remaining(next) == [items[1]] by {
      RemainingSplit([], Claimed, [Free(items[1])]);
      RemainingSingle(Free(items[1]));
    }
    assert UnorderedFrom(next, spec, 1, "", h) == Mismatch(NoMatchFound("", SList([Lit(Int(1))]), [List([])]));
  }

  /** The four element checks behind the greedy example. */
  lemma {:induction false} GreedyPieces(h: Host)
    ensures Validate(ListMatcher([Leaf(Int(1))], false), SList([Wildcard]), "", h) == Matched
    ensures Validate(ListMatcher([], false), SList([Wildcard]), "", h) == Matched
    ensures Validate(ListMatcher([Leaf(Int(1))], false), SList([Lit(Int(1))]), "", h) == Matched
    ensures Validate(ListMatcher([], false), SList([Lit(Int(1))]), "", h).Mismatch?
  {
    AnyListMatchesWildcardList([Leaf(Int(1))], h);
    AnyListMatchesWildcardList([], h);
    OneMatchesOne(h);
    assert !IsUnorderedSpec(SList([Lit(Int(1))]));
  }

  lemma {:induction false} AnyListMatchesWildcardList(items: seq<Node>, h: Host)
    ensures Validate(ListMatcher(items, false), SList([Wildcard]), "", h) == Matched
  {
    var spec := SList([Wildcard]);
    assert IsUnorderedSpec(spec) by { assert spec.items[0] == Wildcard; }
    assert UnorderedFrom(InitialSlots(items), spec, 1, "", h) == Matched;
    assert UnorderedFrom(InitialSlots(items), spec, 0, "", h) == Matched;
  }

  lemma {:induction false} OneMatchesOne(h: Host)
    ensures Validate(ListMatcher([Leaf(Int(1))], false), SList([Lit(Int(1))]), "", h) == Matched
  {
    var spec := SList([Lit(Int(1))]);
    assert !IsUnorderedSpec(spec);
    var os := ElementOutcomes([Leaf(Int(1))], spec, "", h);
    assert os[0] == Validate(Plain(Leaf(Int(1))), Lit(Int(1)), IndexLocation("", 0), h);
    assert ScalarEq(Int(1), Int(1));
    assert os[0] == Matched;
    assert os[1..] == [];
    assert FirstNonMatch(os) == Matched;
  }

  /** Spec element "index2" claims the third value. */
  lemma {:induction false} ExampleFirstClaim(h: Host)
    ensures Claim(InitialSlots([Leaf(Str("index0")), Leaf(Str("index1")), Leaf(Str("index2"))]),
      SList([Lit(Str("index2")), Lit(Str("index4")), Wildcard]), 0, 0, "3", h) == Found(2)
  {
    var slots := InitialSlots([Leaf(Str("index0")), Leaf(Str("index1")), Leaf(Str("index2"))]);
    var spec := SList([Lit(Str("index2")), Lit(Str("index4")), Wildcard]);
    assert Claim(slots, spec, 0, 2, "3", h) == Found(2);
    assert Claim(slots, spec, 0, 1, "3", h) == Found(2);
  }

  /** Spec element "index4" then finds no free value. */
  lemma {:induction false} ExampleSecondClaim(h: Host)
    ensures Claim([Free(Leaf(Str("index0"))), Free(Leaf(Str("index1"))), Claimed],
      SList([Lit(Str("index2")), Lit(Str("index4")), Wildcard]), 1, 0, "3", h) == NotFound
  {
    var next := [Free(Leaf(Str("index0"))), Free(Leaf(Str("index1"))), Claimed];
    var spec := SList([Lit(Str("index2")), Lit(Str("index4")), Wildcard]);
    assert Claim(next, spec, 1, 2, "3", h) == NotFound;
    assert Claim(next, spec, 1, 1, "3", h) == NotFound;
  }

  lemma {:induction false} ExampleRemaining()
    ensures Remaining([Free(Leaf(Str("index0"))), Free(Leaf(Str("index1"))), Claimed])
      == [Leaf(Str("index0")), Leaf(Str("index1"))]
  {
    var next := [Free(Leaf(Str("index0"))), Free(Leaf(Str("index1"))), Claimed];
    assert next[1..][1..] == [Claimed];
    assert Remaining([Claimed]) == [] by { assert [Claimed][1..] == []; }
    assert next[1..] == [Free(Leaf(Str("index1"))), Claimed];
    assert Remaining(next[1..]) == [Leaf(Str("index1"))];
  }

  /** A tree written out as a spec literal: dicts, lists, tuples and scalars as they are. */
  function Embed(n: Node): (spec: Spec)
    ensures !spec.Wildcard? && !spec.Regex?
    ensures n.Dict? ==> spec.SDict? && |spec.entries| == |n.entries|
    ensures n.List? ==> spec.SList? && |spec.items| == |n.items|
    ensures n.Tuple? ==> spec.STuple? && |spec.items| == |n.items|
  {
    match n
    case Leaf(x) => Lit(x)
    case Dict(es) => SDict(seq(|es|, i requires 0 <= i < |es| => (Named(es[i].0), Embed(es[i].1))))
    case List(xs) => SList(seq(|xs|, i requires 0 <= i < |xs| => Embed(xs[i])))
    case Tuple(xs) => STuple(seq(|xs|, i requires 0 <= i < |xs| => Embed(xs[i])))
  }

  /** What Python guarantees of real data: dict keys are distinct, and `str(uuid)` is lower case. */
  ghost predicate Proper(n: Node) {
    match n
    case Leaf(x) => x.Uuid? ==> Lower(x.hex) == x.hex
    case Dict(es) => Assoc.NoDup(Assoc.Keys(es)) && forall i :: 0 <= i < |es| ==> Proper(es[i].1)
    case List(xs) => forall i :: 0 <= i < |xs| ==> Proper(xs[i])
    case Tuple(xs) => forall i :: 0 <= i < |xs| ==> Proper(xs[i])
  }

  /** `arrow.get(d) == arrow.get(d)` for every datetime d. */
  ghost predicate ReflexiveInstants(h: Host) {
    forall s :: h.instant(Plain(Leaf(Moment(s))), s) == SameInstant
  }

  /** Every tree matches itself written out as a spec (`DeepDict(raw) == raw`). */
  lemma {:induction false} SelfMatch(n: Node, loc: string, h: Host)
    requires Proper(n) && ReflexiveInstants(h)
    ensures Validate(WrapValue(n, Embed(n)), Embed(n), loc, h) == Matched
    decreases n, 2
  {
    match n
    case Leaf(x) =>
      if x.Moment? {
        assert h.instant(Plain(Leaf(Moment(x.stamp))), x.stamp) == SameInstant;
      }
    case Dict(es) => SelfMatchDict(n, loc, h);
    case List(xs) => SelfMatchList(n, loc, h);
    case Tuple(xs) => SelfMatchList(n, loc, h);
  }

  lemma {:induction false} SelfMatchDict(n: Node, loc: string, h: Host)
    requires n.Dict? && Proper(n) && ReflexiveInstants(h)
    ensures MatchDict(n.entries, Embed(n), loc, h) == Matched
    decreases n, 1
  {
    var os := KeyOutcomes(n.entries, Embed(n), loc, h);
    EmbedKeysAgree(n);
    forall k | 0 <= k < |n.entries| ensures os[k].Matched? {
      SelfMatchKey(n, k, loc, h);
    }
    FirstNonMatchAll(os);
  }

  lemma {:induction false} SelfMatchKey(n: Node, k: nat, loc: string, h: Host)
    requires n.Dict? && k < |n.entries| && Proper(n) && ReflexiveInstants(h)
    ensures KeyCheck(n.entries, Embed(n), k, loc, h) == Matched
    decreases n, 0
  {
    var es := n.entries;
    var spec := Embed(n);
    assert spec.entries[k] == (Named(es[k].0), Embed(es[k].1));
    Assoc.LookupAt(es, k);
    SelfMatch(es[k].1, KeyLocation(loc, es[k].0), h);
  }

  /** A dict and its embedding have the same key set, and the embedding has no `...` key. */
  lemma {:induction false} EmbedKeysAgree(n: Node)
    requires n.Dict?
    ensures !KeysDiffer(n.entries, Embed(n).entries)
  {
    var es := n.entries;
    var sks := Assoc.Keys(Embed(n).entries);
    EmbedNames(n);
    assert AnyKey !in sks;
    var ns := SpecNames(Embed(n).entries);
    assert |ns| == |es|;
    forall i | 0 <= i < |es| ensures ns[i] == Assoc.Keys(es)[i] {
      assert sks[i] == Named(es[i].0);
    }
    assert ns == Assoc.Keys(es);
  }

  /** The spec keys of an embedded dict name its keys, position by position. */
  lemma {:induction false} EmbedNames(n: Node)
    requires n.Dict?
    ensures |Assoc.Keys(Embed(n).entries)| == |n.entries|
    ensures forall i :: 0 <= i < |n.entries| ==> Assoc.Keys(Embed(n).entries)[i] == Named(n.entries[i].0)
  {
    assert forall i :: 0 <= i < |n.entries| ==> Embed(n).entries[i].0 == Named(n.entries[i].0);
  }

  lemma {:induction false} SelfMatchList(n: Node, loc: string, h: Host)
    requires (n.List? || n.Tuple?) && Proper(n) && ReflexiveInstants(h)
    ensures MatchList(n.items, n.Tuple?, Embed(n), loc, h) == Matched
    decreases n, 1
  {
    var xs := n.items;
    var spec := Embed(n);
    assert forall i :: 0 <= i < |xs| ==> spec.items[i] == Embed(xs[i]);
    assert !IsUnorderedSpec(spec);
    var os := ElementOutcomes(xs, spec, loc, h);
    forall i | 0 <= i < |xs| ensures os[i].Matched? {
      SelfMatch(xs[i], IndexLocation(loc, i), h);
    }
    FirstNonMatchAll(os);
  }
}
