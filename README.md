# deepdict: dotted-path access, structural matching and deep merging

This project models the core of the `deepdict` / `dictdeeper` Python library:

- **Dotted-path access.** `DeepDict` and `DeepList` wrap a nested tree of dicts, lists, tuples and scalars. They read it with dotted keys such as `"4.1.shapes.1"`.
  - `NestedKey` splits the key on `"."`.
  - Each segment is a `Key` that remembers its origin: the dotted prefix before it.
  - `Traversor` walks the tree one segment per hop. A dict hop is a key lookup. A list or tuple hop is `int(part)` with Python indexing.
  - It raises `DeepDictKeyError`, `DeepDictIndexError` or `DeepDictValueError`, naming the exact segment where the walk stopped.
- **Structural matching.** `DeepDict == spec` and `DeepList == spec` compare the tree against a spec that may hold:
  - `...` wildcards, as values and as a dict key;
  - `None`, regexes, datetimes, UUIDs and Decimals;
  - nested dicts, lists and tuples.

  A list spec holding `...` is matched in any order by a greedy search. The first mismatch is raised as a `MatcherError` subclass carrying its dotted location.
- **Deep merging.** `DeepMerger(strategies)(a, b)` copies `a`, then sets each key of `b` to `merge_values(a.get(key), b[key])`. `merge_values` applies the first strategy whose `test` passes; if none passes, b's value wins. The strategies are:
  - MergeDicts;
  - CombineLists;
  - MergeListOfDictsByPosition;
  - MergeListsOfDictsByKey;
  - the abstract base, whose methods raise `NotImplementedError`.

How the model represents the library:
- A tree is a `Tree.Node`. Dicts are ordered association lists, because Python dicts keep insertion order.
- Lookups and exceptions are `Result` / `Outcome` values.
- The library calls the matcher depends on are fields of a `Matcher.Host` record passed in:
  - `re.match`;
  - `arrow.get` comparison;
  - `str(value)`;
  - `decimal.Decimal(text)`.
- The loops that update state are methods proved against the functions they compute:
  - `Traversor.__getitem__`;
  - `NestedKey.__iter__`;
  - the two loops of `_matches_unordered`, over an array of slots;
  - `DeepMerger.__call__` and `merge_values`;
  - `MergeListsOfDictsByKey.__call__`.

The copies under `src/dictdeeper/` are the same code with shifted line numbers:
- `core.py` lines are 2 lower;
- `matcher.py` lines are 3 lower;
- `merger.py` lines are 1 lower than `deepdict/merger.py`.

The rows below cite `dictdeeper/` and `deepdict/`.

## Model

| member | source | states |
|---|---|---|
| Text.Split | dictdeeper/core.py:123 | `str.split(".")`: always at least one piece, no piece contains the separator, a string without separator is its own single piece |
| Text.JoinSplit | dictdeeper/core.py:121-127 | joining the pieces of a split with "." gives the original string back, empty pieces included |
| Text.SplitJoin | dictdeeper/core.py:121-127 | splitting a join gives the pieces back whenever no piece holds the separator |
| Text.NatToString | dictdeeper/matcher.py:143 | `str(index)` is a non-empty run of decimal digits |
| Text.ParseInt | dictdeeper/core.py:149 | `int(part)` succeeds exactly on digits with an optional sign |
| Text.ParseIntRoundTrip | dictdeeper/core.py:149 | `int(str(n)) == n` and `int("-" + str(n)) == -n` |
| Text.Lower | dictdeeper/matcher.py:82 | `str.lower()` keeps the length and lowers exactly the ASCII capitals |
| Tree.ScalarEq | dictdeeper/matcher.py:93 | Python `==` on scalars: reflexive; bool, int and Decimal compare by numeric value; a number never equals a non-number; two non-numeric scalars are equal only when identical |
| Tree.ScalarEqSymmetric | dictdeeper/matcher.py:93 | scalar equality is symmetric |
| Path.MakeNestedKey | dictdeeper/core.py:112-123 | the text of `NestedKey(key, origin)` is the key, or `origin.key` when an origin is given; its path is the split key, preceded by the whole origin as one piece when there is one; splitting the text gives the path back when the origin has no separator |
| Path.PathRoundTrip | dictdeeper/core.py:121-127 | `_collapse(_path(key, origin))` is `key` or `origin.key`, and splitting it recovers `_path` |
| Path.OriginStep | dictdeeper/core.py:132-136 | formatting a segment with "origin" yields the origin of the next segment (the dotted join of the pieces so far, leading empty pieces dropped) |
| Path.Iterate | dictdeeper/core.py:132-136 | iterating a NestedKey yields one Key per piece, piece i carrying the dotted join of the pieces before it as origin |
| Path.NonEmptyOrigins | dictdeeper/core.py:132-136 | with non-empty pieces, segment i has part `path[i]`, origin `".".join(path[:i])`, empty origin first, and formats to `".".join(path[:i+1])` |
| Path.ThirdSegmentOfExample | tests/test_deep_access.py:76-79 | the third segment of "2.b.iii.x.y.z" is `Key(origin='2.b', part='iii')` |
| Resolver.NormaliseIndex | dictdeeper/core.py:149 | Python indexing accepts exactly `-len <= i < len`, counting negative indices from the end |
| Resolver.Traverse | dictdeeper/core.py:162-173 | the loop of `Traversor.__getitem__` computes the resolution of the key: the value after the last hop, or the first hop's exception |
| Resolver.WalkSegments | dictdeeper/core.py:165-173 | the per-segment loop reassigns the current value and stops at the first hop that raises, exactly as `Walk` |
| Resolver.StepFailureNamesSegment | dictdeeper/core.py:146-171 | a failed hop names the segment itself; it is a `DeepDictValueError` exactly on a scalar and a `DeepDictKeyError` exactly on a dict |
| Resolver.WalkAppend | dictdeeper/core.py:165-171 | walking two segment lists in a row is walking their concatenation |
| Resolver.WalkFailureIsFirstFailedHop | dictdeeper/core.py:165-171 | a failed walk failed at some segment i: the first i hops succeed and hop i raises the reported error, which names that segment |
| Resolver.DictHop | dictdeeper/core.py:154-160 | a dict hop raises `DeepDictKeyError(part)` iff the part is not a key, and otherwise returns that key's value |
| Resolver.ListHop | dictdeeper/core.py:146-152 | a list hop returns `items[i]` or `items[i + len]` for a valid index and raises `DeepDictIndexError(part)` for an out-of-range one |
| Resolver.ScalarHop | dictdeeper/core.py:170-171 | a hop on a scalar raises `DeepDictValueError(part)` |
| Views.DeepFactory | dictdeeper/core.py:11-16 | dicts and lists/tuples are wrapped, scalars returned as they are, and unwrapping gives the value back |
| Views.FactoryOfUnwrap | dictdeeper/core.py:11-16 | wrapping the value of a view gives the same view |
| Views.GetItem | dictdeeper/core.py:41-42 | `DeepDict[key]` succeeds iff the traversal does, returns the traversed value through `DeepFactory`, and raises the traversal's error |
| Views.ListGetItem | dictdeeper/core.py:76-80 | an int index succeeds iff it is in Python range, returns element i (counted from the end when negative) unwrapped, and otherwise raises a plain IndexError |
| Views.IntIndexAgreesWithPath | dictdeeper/core.py:76-80 | `DeepList[n]` and `DeepList[str(n)]` reach the same element; only the path form wraps it |
| Views.SingleSegmentResolve | dictdeeper/core.py:162-173 | a key without "." resolves in one hop with an empty origin |
| Views.Get | dictdeeper/core.py:47-51 | `DeepDict.get` (a DeepList has none) returns the lookup, the default on any KeyError, and propagates other errors |
| Views.Contains | dictdeeper/core.py:24-29 | `key in DeepDict` is true iff the lookup succeeds, false iff it raises a KeyError, and propagates other errors |
| Views.Iter | dictdeeper/core.py:35-36 | iteration yields the wrapped dict's keys, one per entry, in order |
| Views.Values | dictdeeper/core.py:60-62 | `values()` succeeds iff `items()` does and yields its values in order |
| Views.ItemsListKeysInOrder | dictdeeper/core.py:56-58 | the keys of `items()` are the wrapped dict's keys in order, as `keys()` lists them |
| Views.SegmentFreeLookup | dictdeeper/core.py:41-42 | a key without "." is looked up directly in the wrapped dict |
| Views.PlainKeyLookup | dictdeeper/core.py:41-42 | with distinct keys, a key without "." looks up its own value |
| Views.ItemsOfPlainKeys | dictdeeper/core.py:56-58 | with distinct keys that hold no ".", `items()` pairs every key with its own value passed through `DeepFactory` |
| Views.DottedKeyIsReadAsPath | dictdeeper/core.py:24-58 | a dict key holding "." is listed by `keys()` but read as a path: `{"a.b": 1}["a.b"]` raises the key error for segment "a", `in` says false and `items()` raises |
| Views.ListContains | dictdeeper/core.py:70-74 | `item in DeepList` is true iff matching `[item, ...]` passes, false iff it raises a MatcherError |
| Views.ListContainsIffSomeElementMatches | dictdeeper/core.py:70-74 | on a list, `item in DeepList` is true iff some element matches the item; on a tuple `.copy()` raises |
| Matcher.KeyLocation | dictdeeper/matcher.py:117 | the location is the key alone at the top level and `location.key` below it |
| Matcher.WrapValue | dictdeeper/matcher.py:38-45 | under `...` the value is left as it is; otherwise dicts become DictMatchers and lists/tuples ListMatchers |
| Matcher.SpecNames | dictdeeper/matcher.py:114-115 | the named keys of a spec are exactly its keys other than `...`; without a `...` key they are `tuple(spec)`: every key, in the spec's own order |
| Matcher.FinalCompare | dictdeeper/matcher.py:93-96 | the final comparison passes exactly on equal scalars, otherwise raises `ValueMismatch(loc, spec, value)` with the values it compared, and escapes only on a wrapped matcher, where the source would call `Matcher.__eq__` (see Left out) |
| Matcher.InitialSlots | dictdeeper/matcher.py:149 | the working copy holds every value, free, in order |
| Matcher.Remaining | dictdeeper/matcher.py:165 | `remaining_values` are exactly the values whose slot was not claimed |
| Matcher.RemainingAppend | dictdeeper/matcher.py:165 | the unclaimed values of two runs of slots are the first run's followed by the second's, so the list keeps tree order |
| Matcher.RemainingOfInitial | dictdeeper/matcher.py:149-165 | before any claim, `remaining_values` is the whole list, in order and with duplicates |
| Matcher.RemainingAfterClaim | dictdeeper/matcher.py:162-165 | claiming slot k removes exactly that value and keeps the others in tree order |
| Matcher.Claim | dictdeeper/matcher.py:153-163 | the inner search claims a free slot, at or after where it started |
| Matcher.MatchesUnordered | dictdeeper/matcher.py:148-167 | the two loops over the array of slots compute the unordered match |
| MatcherLaws.WildcardMatchesAnything | dictdeeper/matcher.py:50-51 | `...` matches every value, the missing-key sentinel included |
| MatcherLaws.NoneSpecMatchesOnlyNone | dictdeeper/matcher.py:54-55 | spec None matches exactly None; anything else raises TypeMismatch at the location |
| MatcherLaws.UuidRule | dictdeeper/matcher.py:80-94 | a UUID spec matches iff `str(value).lower()` is the UUID's canonical text; otherwise ValueMismatch with both normalised sides |
| MatcherLaws.UuidIgnoresCase | dictdeeper/matcher.py:80-83 | a string matches a UUID spec whatever the case of its letters |
| MatcherLaws.DecimalRule | dictdeeper/matcher.py:85-94 | a Decimal spec: a value `decimal.Decimal` rejects gives TypeMismatch with the original value; a converted value matches iff equal, else ValueMismatch carrying the converted value |
| MatcherLaws.DecimalOfString | dictdeeper/matcher.py:85-94 | a string converting to `e` matches exactly when `e` equals the spec, else ValueMismatch carrying `e` |
| MatcherLaws.DecimalMismatchReports | tests/test_deep_matcher.py:191-203 | the payloads the tests expect: `Decimal("123.45")` for convertible text, the original value for "not a number" and None |
| MatcherLaws.AnyKeyAdmitsEveryDict | dictdeeper/matcher.py:114-125 | `{...: ...}` matches every dict |
| MatcherLaws.KeySetsMustAgree | dictdeeper/matcher.py:114-115 | without a `...` key, a match implies equal key sets, and different key sets raise KeysDoNotMatch with both key tuples |
| MatcherLaws.AnyKeySkipsKeySetCheck | dictdeeper/matcher.py:114-115 | with a `...` key, the key-set check is skipped |
| MatcherLaws.FirstNonMatchAll | dictdeeper/matcher.py:116-125 | a loop that stops at the first failing check passes iff every check passes |
| MatcherLaws.FirstNonMatchIsFirst | dictdeeper/matcher.py:116-125 | such a loop reports the first failing check |
| MatcherLaws.DictReportsFirstFailingKey | dictdeeper/matcher.py:113-125 | once key sets agree, a dict matches iff every spec key's check passes, and otherwise raises the first failing key's error in spec order |
| MatcherLaws.AbsentNeverMissingKey | dictdeeper/matcher.py:48-96 | validating the missing-key sentinel never raises MissingRequiredKey |
| MatcherLaws.RequiredKeyRule | dictdeeper/matcher.py:119-124 | a `...` value requires its key (MissingRequiredKey at `location.key` if absent, a pass if present); an absent key with another spec is validated as the sentinel |
| MatcherLaws.AnyKeyEntryIsSkipped | dictdeeper/matcher.py:120-121 | the `...` key's entry is skipped |
| MatcherLaws.OrderedListRule | dictdeeper/matcher.py:137-146 | an ordered spec raises LengthTooShort/LengthTooLong on a length difference; equal lengths match iff every element matches at `location.i`, otherwise the first failing index is reported |
| MatcherLaws.UnorderedListRule | dictdeeper/matcher.py:131-135 | a list spec holding `...` takes the unordered path; on a tuple `.copy()` raises |
| MatcherLaws.ClaimIsFirstFit | dictdeeper/matcher.py:153-163 | the inner loop claims the first free value that validates, skipping those raising a MatcherError; it finds nothing iff every free value raises one; another exception stops it at the value that raised |
| MatcherLaws.UnorderedClaims | dictdeeper/matcher.py:150-163 | the claimed positions are free, validate against their spec elements, and are pairwise distinct |
| MatcherLaws.UnorderedMatchIsAnAssignment | dictdeeper/matcher.py:148-167 | a successful unordered match gives each non-`...` spec element its own distinct list element that validates against it |
| MatcherLaws.ClaimIgnoresLaterSlots | dictdeeper/matcher.py:153-163 | a claim that succeeds is unaffected by values appended after the list |
| MatcherLaws.UnorderedIgnoresLaterSlots | dictdeeper/matcher.py:150-166 | an unordered search that succeeds still succeeds with more values appended |
| MatcherLaws.ExtraElementsKeepUnorderedMatch | dictdeeper/matcher.py:148-167 | an unordered spec that matches a list matches every extension of it |
| MatcherLaws.GreedySearchMissesAnAssignment | dictdeeper/matcher.py:150-166 | the search is greedy: `[[...], [1], ...]` against `[[1], []]` raises NoMatchFound although a valid assignment exists |
| MatcherLaws.NoMatchFoundReportsUnclaimed | tests/test_deep_matcher.py:161-163 | `["index2", "index4", ...]` at "3" raises NoMatchFound with "index4" and the two unclaimed values |
| MatcherLaws.Embed | dictdeeper/matcher.py:58-63 | a tree written as a spec literal keeps the shape: dicts, lists and tuples of the same sizes, and no wildcard or regex |
| MatcherLaws.SelfMatch | dictdeeper/matcher.py:48-96 | every proper tree matches itself written as a spec |
| MatcherLaws.SelfMatchDict | dictdeeper/matcher.py:113-125 | a proper dict matches itself as a spec |
| MatcherLaws.SelfMatchKey | dictdeeper/matcher.py:116-124 | each key of a proper dict passes its check against the dict's own spec |
| MatcherLaws.EmbedKeysAgree | dictdeeper/matcher.py:114-115 | a dict and its own spec have the same key set |
| MatcherLaws.SelfMatchList | dictdeeper/matcher.py:137-146 | a proper list or tuple matches itself as a spec |
| Merger.AllDictsSplit | deepdict/merger.py:21 | `all(isinstance(item, dict) for item in a + b)` holds iff it holds for a and for b |
| Merger.Test | deepdict/merger.py:5-63 | only the abstract test raises; a passing list strategy saw two lists, and a passing MergeDicts saw two dicts |
| Merger.TestRule | deepdict/merger.py:19-60 | each test passes exactly when its types fit: the positional one on two lists of dicts, the keyed one on two lists of dicts that all pass `condition`, CombineLists on two lists, MergeDicts on two dicts |
| Merger.ZipLongest | deepdict/merger.py:24 | `zip_longest(a, b, fillvalue={})` has the longer length and pairs element i of each side, `{}` past its end |
| Merger.KeyList | deepdict/merger.py:40-42 | the key function is applied to each item with its index |
| Merger.InitialTable | deepdict/merger.py:40 | the initial table has each of a's keys once, in first-occurrence order, and holds only items of a |
| Merger.InitialTableValues | deepdict/merger.py:40 | the slot of each key holds the LAST item of a with that key, and a key no item produces has no slot |
| Merger.TableFromLast | deepdict/merger.py:40 | a key produced by item j, and by no later item, ends up holding item j |
| Merger.TableFromUntouched | deepdict/merger.py:40 | a key that no remaining item produces keeps what the table held |
| Merger.TableFrom | deepdict/merger.py:40 | building the table keeps earlier keys and appends new ones in order, with values from a |
| Merger.Call | deepdict/merger.py:70-74 | the loop of `DeepMerger.__call__` computes the merge of a and b |
| Merger.SelectStrategy | deepdict/merger.py:76-80 | the loop of `merge_values` computes the first applicable strategy's result, or b's value |
| Merger.KeyedCall | deepdict/merger.py:39-47 | the loop of `MergeListsOfDictsByKey.__call__` over `temp_dict` computes that strategy's result |
| MergerLaws.MergeOk | deepdict/merger.py:5-80 | a merge only raises the abstract test's `NotImplementedError`, and only when the abstract strategy is used |
| MergerLaws.ApplyOk | deepdict/merger.py:19-63 | a strategy whose test passed never raises except through the abstract test below it |
| MergerLaws.ConcreteStrategiesNeverRaise | deepdict/merger.py:19-80 | without the abstract strategy every merge succeeds |
| MergerLaws.MergeRaisesOnlyFromTest | deepdict/merger.py:5-16 | a failing merge raises "Must implement test method.", never the `__call__` message |
| MergerLaws.AbstractStrategyRaises | deepdict/merger.py:5-16 | the abstract strategy's `test` and `__call__` raise their `NotImplementedError`s |
| MergerLaws.MergeKeyOrder | deepdict/merger.py:70-74 | the result has a's keys in a's order followed by b's new keys in b's order; keys b lacks keep a's value |
| MergerLaws.MergeValueAt | deepdict/merger.py:72-73 | each key of b ends up holding `merge_values(a.get(key), b[key])` |
| MergerLaws.NewKeysTakeBValue | deepdict/merger.py:72-80 | a key only b has gets b's value |
| MergerLaws.SkipInapplicable | deepdict/merger.py:77-78 | strategies whose test fails are passed over |
| MergerLaws.FirstApplicableStrategyWins | deepdict/merger.py:76-80 | the first strategy whose test passes is applied; if none does, b's value is returned; the abstract strategy raises |
| MergerLaws.ScalarsOverride | deepdict/merger.py:76-80 | when either value is a scalar, b's value wins |
| MergerLaws.DefaultMergerRule | deepdict/merger.py:67-68 | the default merger merges two dicts recursively and otherwise gives b's value |
| MergerLaws.CombineListsRule | deepdict/merger.py:50-55 | CombineLists applies to two lists and concatenates them |
| MergerLaws.TuplesAreNotLists | deepdict/merger.py:21 | the list strategies never apply when either side is a tuple |
| MergerLaws.PositionRule | deepdict/merger.py:19-24 | by position, two lists of dicts merge into a list of the longer length whose item i merges the items i, `{}` standing in past either end |
| MergerLaws.KeyedRule | deepdict/merger.py:39-47 | by key, the result holds one item per distinct key in first-occurrence order over a then b |
| MergerLaws.KeyedNewKeyRule | deepdict/merger.py:45-46 | an item with a new key is appended to the table as it is |
| MergerLaws.KeyedTakenKeyRule | deepdict/merger.py:43-44 | an item whose key is taken is merged into the stored item in place, and a failing merge stops the loop with its error |
| MergerExamples.SameIdAddsKey | tests/test_deep_merger.py:98-99 | merging by "id" adds b's new key to the item with the same id |
| MergerExamples.DefaultOverridesScalar | tests/test_deep_merger.py:128-129 | `{"1": "one"}` merged with `{"1": "ONE"}` gives `{"1": "ONE"}` |
| MergerExamples.DefaultKeepsNestedDict | tests/test_deep_merger.py:131-132 | merging an empty nested dict keeps a's nested values |
| AccessExamples.WalkStopsAtThird | tests/test_deep_access.py:76-79 | any walk of the fixture through "2", "b", "iii" stops at the third segment |
| AccessExamples.MissingThirdSegment | tests/test_deep_access.py:76-79 | `data["2.b.iii.x.y.z"]` raises `DeepDictKeyError(Key(origin='2.b', part='iii'))`, so `get` returns the default |
| Assoc.Set | deepdict/merger.py:73 | `d[k] = v` keeps the key order (appending a new key), stores v under k and changes no other key |
| Assoc.GetOr | deepdict/merger.py:73 | `d.get(k, None)` is the default for a missing key and the stored value otherwise |
| Assoc.Lookup | dictdeeper/core.py:157 | `d[k]` is missing exactly when k is not a key, and otherwise is the value of an entry with that key |
| Assoc.LookupFirst | dictdeeper/core.py:157 | that entry is the first one with the key |
| Matcher.Validate | dictdeeper/matcher.py:48-96 | no contract of its own: `validate_match`, its cases in the source's order; the MatcherLaws rows state its meaning (WildcardMatchesAnything, NoneSpecMatchesOnlyNone, UuidRule, DecimalRule, SelfMatch, AbsentNeverMissingKey) |
| Matcher.MatchDict | dictdeeper/matcher.py:113-125 | no contract of its own: `DictMatcher.matches`; KeySetsMustAgree, AnyKeySkipsKeySetCheck and DictReportsFirstFailingKey state it |
| Matcher.MatchList | dictdeeper/matcher.py:131-146 | no contract of its own: `ListMatcher.matches` and `_matches_ordered`; OrderedListRule and UnorderedListRule state it |
| Matcher.UnorderedFrom | dictdeeper/matcher.py:150-166 | no contract of its own: the outer loop of `_matches_unordered`; UnorderedClaims, UnorderedMatchIsAnAssignment and UnorderedIgnoresLaterSlots state it |
| Matcher.DecimalOf | dictdeeper/matcher.py:86-90 | no contract of its own: `decimal.Decimal(value)`, exact for numbers and delegated to the host for strings |
| Matcher.Display | dictdeeper/matcher.py:81-83 | no contract of its own: `str(value)`, the string itself, the UUID's hex, or the host's rendering |
| Matcher.IsUnorderedSpec | dictdeeper/matcher.py:132 | no contract of its own: a list spec holding `...` |
| Resolver.ValueFromList | dictdeeper/core.py:146-152 | no contract of its own: `_value_from_list`; ListHop states it |
| Resolver.ValueFromDict | dictdeeper/core.py:154-160 | no contract of its own: `_value_from_dict`; DictHop states it |
| Resolver.Step | dictdeeper/core.py:166-171 | no contract of its own: one hop; StepFailureNamesSegment, DictHop, ListHop and ScalarHop state it |
| Resolver.Walk | dictdeeper/core.py:165-171 | no contract of its own: the hops in order; WalkAppend and WalkFailureIsFirstFailedHop state it |
| Resolver.Resolve | dictdeeper/core.py:162-173 | no contract of its own: `Traversor(tree)[key]`; Traverse is proved equal to it |
| Path.Format | dictdeeper/core.py:99-103 | no contract of its own: `Key.__format__`; OriginStep and NonEmptyOrigins state it |
| Path.PathOf | dictdeeper/core.py:121-123 | no contract of its own: `NestedKey._path`; PathRoundTrip states it |
| Path.Collapse | dictdeeper/core.py:125-127 | no contract of its own: `NestedKey._collapse`; PathRoundTrip states it |
| Path.KeysOf | dictdeeper/core.py:132-136 | one segment per piece; Iterate is proved equal to it and NonEmptyOrigins states its origins |
| Views.Items | dictdeeper/core.py:56-58 | no contract of its own: `items()`; ItemsListKeysInOrder and ItemsOfPlainKeys state it |
| Views.DictEquals | dictdeeper/core.py:31-33 | no contract of its own: `DeepDict == spec` is `DictMatcher.matches` at the top location |
| Views.ListEquals | dictdeeper/core.py:82-84 | no contract of its own: `DeepList == spec` is `ListMatcher.matches` at the top location |
| Merger.DefaultMerger | deepdict/merger.py:66-68 | no contract of its own: `DeepMerger()` with `(MergeDicts(),)`; DefaultMergerRule states it |
| Merger.Merge | deepdict/merger.py:70-74 | no contract of its own: `DeepMerger.__call__`; Call is proved equal to it, MergeKeyOrder and MergeValueAt state it |
| Merger.MergeValues | deepdict/merger.py:76-80 | no contract of its own: `merge_values`; SelectStrategy is proved equal to it, FirstApplicableStrategyWins states it |
| Merger.Apply | deepdict/merger.py:5-63 | no contract of its own: each strategy's `__call__`; ApplyOk, CombineListsRule, PositionRule and KeyedRule state it |
| Merger.PositionFrom | deepdict/merger.py:23-24 | no contract of its own: the comprehension over `zip_longest`; PositionRule states it |
| Merger.KeyedFrom | deepdict/merger.py:41-46 | no contract of its own: the loop over b's items; KeyedNewKeyRule, KeyedTakenKeyRule and KeyedRule state it |

## Left out
- `Views.Items`, `Views.Values`: `items()` and `values()` are generators (dictdeeper/core.py:56-62). A caller sees the pairs before a failing lookup and only then the error. The model gives either the whole list or the error, so it does not capture that partial output.

- Python's `int()` also accepts surrounding whitespace and `_` digit separators. The model accepts only an optional sign followed by ASCII digits.
- Dict keys are strings only. The merger tests also use int keys, and other hashable keys are left out.
- `NestedKey` raises a `TypeError` for a non-string key. This cannot arise, because every key in the model is a string.
- `re.match`, `arrow.get`, `str()` of non-string values and `decimal.Decimal(text)` are library calls. They are parameters, as fields of `Matcher.Host`, and are not modelled.
- `Text.Lower`: lowers ASCII letters only. Full Unicode case mapping is not modelled.
- Floats are not modelled. Decimals are exact reals, so Decimal NaN and infinities are not modelled either.
- `DeepDict.__len__`, `DeepList.__len__`, `keys()`, the `__repr__` methods, `Key.__repr__` and the `Mapping`/`Sequence` mixin methods are Python protocol machinery. `DeepDict.__iter__` and `keys()` are modelled together, as `Views.Iter`.
- Python identity is not modelled. `sentinel.DOES_NOT_EXIST` and `sentinel.MATCH_FOUND` are the `Absent` probe and the `Claimed` slot, and `spec is ...` is value equality with the `Wildcard` spec.
- `Matcher.FinalCompare`: a dict or list matcher can reach the final `value != spec` with a spec of another shape, such as a string, a number, a dict spec for a list, or a list spec for a dict. Python then calls the library's own `Matcher.__eq__` (dictdeeper/matcher.py:34-35), which runs `matches(spec)` with an empty location. The model does not follow that call: it stops with the `CrossShapeEquality` fault. This has two consequences:
  - Where the source matches or raises a `MatcherError`, the model aborts instead. For example, `DictMatcher({}) == ""` matches, and `ListMatcher([1]).matches("x")` raises ValueMismatch.
  - The abort reaches `Validate`, the unordered search (which in the source skips a value that raised a `MatcherError`) and `DeepList.__contains__` (`Views.ListContains`). For example, `"x" in DeepList([[1], "x"])` is True in the source, but the model reports a fault.
- Exceptions are values. Chaining (`raise ... from e`) and tracebacks are left out.
- `Views.DictEquals`, `Views.ListEquals`: these take the dict or list spec shape that `DeepDict.__eq__` and `DeepList.__eq__` are annotated with. A spec of another shape is not modelled.
- The key function and condition of `MergeListsOfDictsByKey` are modelled as total functions of the model. Their keys compare structurally, as trees, so unhashable keys and exceptions raised inside them are left out.
- `Merger.KeyedFrom`: `temp_dict` looks keys up by Python equality and hash, so `1`, `True` and `Decimal(1)` are one key there. The model compares key trees structurally, so it treats these as three keys.
- Values are immutable trees, so aliasing is left out. For example, the merged result can share nested objects with `a` and `b`.
- Tests are modelled only through the example lemmas in the table. The positional-merge test cases are not restated as examples; the general `MergerLaws.PositionRule` covers them.
- `MatcherLaws.RequiredKeyRule`: states the three cases as implications, not as one if-and-only-if. With an empty key name, a missing key's location and a present key's location can coincide.
- `deepdict/exceptions.py` is not part of this model beyond the names and arguments of the errors.
