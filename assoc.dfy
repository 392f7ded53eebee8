/**
  Ordered association lists: the model of a Python `dict`, whose iteration
  order is insertion order.  Assigning to an existing key keeps its position;
  assigning to a new key appends it.
 */
module Assoc {
  import opened Wrappers

  /** The keys, in iteration order (`tuple(d)`, `list(d)`). */
  function Keys<K, V>(t: seq<(K, V)>): (ks: seq<K>)
    ensures |ks| == |t|
    ensures forall i :: 0 <= i < |t| ==> ks[i] == t[i].0
  {
    if t == [] then [] else [t[0].0] + Keys(t[1..])
  }

  /** The values, in iteration order (`list(d.values())`). */
  function Values<K, V>(t: seq<(K, V)>): (vs: seq<V>)
    ensures |vs| == |t|
    ensures forall i :: 0 <= i < |t| ==> vs[i] == t[i].1
  {
    if t == [] then [] else [t[0].1] + Values(t[1..])
  }

  /** No key occurs twice (every table built with `Set` keeps this). */
  ghost predicate NoDup<K>(ks: seq<K>) {
    forall i, j :: 0 <= i < j < |ks| ==> ks[i] != ks[j]
  }

  /** `d[k]`, or None where Python raises KeyError. */
  function Lookup<K(==), V>(t: seq<(K, V)>, k: K): (r: Option<V>)
    ensures r.None? <==> k !in Keys(t)
    ensures r.Some? ==> exists i :: 0 <= i < |t| && t[i] == (k, r.value)
  {
    if t == [] then None
    else if t[0].0 == k then Some(t[0].1)
    else Lookup(t[1..], k)
  }

  /** With duplicate keys, `Lookup` reads the first entry with the key. */
  lemma {:induction false} LookupFirst<K, V>(t: seq<(K, V)>, k: K, i: nat)
    requires i < |t| && t[i].0 == k
    requires forall j :: 0 <= j < i ==> t[j].0 != k
    ensures Lookup(t, k) == Some(t[i].1)
    decreases i
  {
    if i > 0 {
      assert t[0].0 != k;
      LookupFirst(t[1..], k, i - 1);
    }
  }

  /** `d.get(k, default)`. */
  function GetOr<K(==), V>(t: seq<(K, V)>, k: K, default: V): (r: V)
    ensures k !in Keys(t) ==> r == default
    ensures k in Keys(t) ==> Lookup(t, k) == Some(r)
  {
    match Lookup(t, k)
    case Some(v) => v
    case None => default
  }

  /** `d[k] = v`: replaces the value in place, or appends a new entry. */
  function Set<K(==,!new), V>(t: seq<(K, V)>, k: K, v: V): (r: seq<(K, V)>)
    ensures Keys(r) == if k in Keys(t) then Keys(t) else Keys(t) + [k]
    ensures Lookup(r, k) == Some(v)
    ensures forall k' :: k' != k ==> Lookup(r, k') == Lookup(t, k')
  {
    if t == [] then [(k, v)]
    else if t[0].0 == k then [(k, v)] + t[1..]
    else [t[0]] + Set(t[1..], k, v)
  }

  /** Assignment writes one entry and keeps every other one. */
  lemma {:induction false} SetEntries<K(!new), V>(t: seq<(K, V)>, k: K, v: V)
    ensures forall p :: p in Set(t, k, v) ==> p == (k, v) || p in t
  {
    if t != [] && t[0].0 != k {
      SetEntries(t[1..], k, v);
      assert forall p :: p in t[1..] ==> p in t;
    }
  }

  /** The key order after assigning the keys `ks` one after another into a table keyed `existing`. */
  function AddKeys<K(==)>(existing: seq<K>, ks: seq<K>): (r: seq<K>)
    decreases |ks|
  {
    if ks == [] then existing
    else AddKeys(if ks[0] in existing then existing else existing + [ks[0]], ks[1..])
  }

  lemma {:induction false} AddKeysKeepsPrefix<K>(existing: seq<K>, ks: seq<K>)
    ensures |existing| <= |AddKeys(existing, ks)|
    ensures AddKeys(existing, ks)[..|existing|] == existing
    ensures forall k :: k in AddKeys(existing, ks) <==> k in existing || k in ks
    decreases |ks|
  {
    if ks != [] {
      var next := if ks[0] in existing then existing else existing + [ks[0]];
      AddKeysKeepsPrefix(next, ks[1..]);
      assert next[..|existing|] == existing;
      assert AddKeys(existing, ks)[..|existing|] == AddKeys(existing, ks)[..|next|][..|existing|];
      assert forall k :: k in ks <==> k == ks[0] || k in ks[1..] by {
        assert ks == [ks[0]] + ks[1..];
      }
    }
  }

  /** Assigning `xs` and then `ys` orders the keys as assigning `xs + ys`. */
  lemma {:induction false} AddKeysAppend<K>(existing: seq<K>, xs: seq<K>, ys: seq<K>)
    ensures AddKeys(AddKeys(existing, xs), ys) == AddKeys(existing, xs + ys)
    decreases |xs|
  {
    if xs == [] {
      assert xs + ys == ys;
    } else {
      assert (xs + ys)[0] == xs[0];
      assert (xs + ys)[1..] == xs[1..] + ys;
      AddKeysAppend(if xs[0] in existing then existing else existing + [xs[0]], xs[1..], ys);
    }
  }

  lemma {:induction false} AddKeysNoDup<K>(existing: seq<K>, ks: seq<K>)
    requires NoDup(existing)
    ensures NoDup(AddKeys(existing, ks))
    decreases |ks|
  {
    if ks != [] {
      var next := if ks[0] in existing then existing else existing + [ks[0]];
      assert NoDup(next);
      AddKeysNoDup(next, ks[1..]);
    }
  }

  /** Assigning into a table whose keys are distinct keeps them distinct. */
  lemma {:induction false} SetNoDup<K(!new), V>(t: seq<(K, V)>, k: K, v: V)
    requires NoDup(Keys(t))
    ensures NoDup(Keys(Set(t, k, v)))
  {
  }

  /** In a table with distinct keys, the entry at position i is what lookup finds. */
  lemma {:induction false} LookupAt<K, V>(t: seq<(K, V)>, i: nat)
    requires NoDup(Keys(t)) && i < |t|
    ensures Lookup(t, t[i].0) == Some(t[i].1)
  {
    if i > 0 {
      assert Keys(t[1..]) == Keys(t)[1..];
      assert t[0].0 != t[i].0 by { assert Keys(t)[0] != Keys(t)[i]; }
      LookupAt(t[1..], i - 1);
    }
  }
}
