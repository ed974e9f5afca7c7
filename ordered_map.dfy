/**
 * PHP arrays with string keys: an ordered dictionary. Assigning to a key that
 * is present replaces its value where it stands; assigning to a new key
 * appends it. `array_merge`, the spread operator and `Collection::only` /
 * `except` / `diffKeys` are expressed on top of that one rule.
 */
module OrderedMap {
  import opened Php

  /** Entries in insertion order; every array built through `Assign` has unique keys. */
  type OMap<V> = seq<(string, V)>

  function Keys<V>(m: OMap<V>): (ks: seq<string>)
    ensures |ks| == |m|
  {
    seq(|m|, i requires 0 <= i < |m| => m[i].0)
  }

  function Values<V>(m: OMap<V>): (vs: seq<V>)
    ensures |vs| == |m|
  {
    seq(|m|, i requires 0 <= i < |m| => m[i].1)
  }

  predicate UniqueKeys<V>(m: OMap<V>) {
    NoDups(Keys(m))
  }

  lemma KeysSnoc<V>(m: OMap<V>, e: (string, V))
    ensures Keys(m + [e]) == Keys(m) + [e.0]
    ensures Values(m + [e]) == Values(m) + [e.1]
  {
  }

  /** One more entry keeps the keys unique exactly when its key is new. */
  lemma UniqueKeysSnoc<V>(m: OMap<V>, e: (string, V))
    ensures UniqueKeys(m + [e]) <==> UniqueKeys(m) && e.0 !in Keys(m)
  {
    KeysSnoc(m, e);
    var ks := Keys(m);
    assert forall i :: 0 <= i < |ks| ==> ks[i] == (ks + [e.0])[i];
    assert (ks + [e.0])[|ks|] == e.0;
  }

  lemma KeysAppend<V>(m: OMap<V>, n: OMap<V>)
    ensures Keys(m + n) == Keys(m) + Keys(n)
  {
  }

  lemma KeysPrefix<V>(m: OMap<V>, n: nat)
    requires n <= |m|
    ensures Keys(m[..n]) == Keys(m)[..n]
    ensures Values(m[..n]) == Values(m)[..n]
  {
  }

  /** `$m[$k] ?? null`; with unique keys the entry found is the only one. */
  function Get<V>(m: OMap<V>, k: string): (r: Option<V>)
    decreases |m|
  {
    if m == [] then None
    else if m[|m| - 1].0 == k then Some(m[|m| - 1].1)
    else Get(m[..|m| - 1], k)
  }

  lemma {:induction false} GetSome<V>(m: OMap<V>, k: string)
    ensures Get(m, k).Some? <==> k in Keys(m)
    ensures Get(m, k).Some? ==> (k, Get(m, k).value) in m
    decreases |m|
  {
    if m != [] {
      var init := m[..|m| - 1];
      KeysSnoc(init, m[|m| - 1]);
      assert m == init + [m[|m| - 1]];
      GetSome(init, k);
    }
  }

  /** In a map with unique keys the entry at position `i` is what `Get` finds for its key. */
  lemma {:induction false} GetAt<V>(m: OMap<V>, i: nat)
    requires UniqueKeys(m) && i < |m|
    ensures Get(m, m[i].0) == Some(m[i].1)
    decreases |m|
  {
    var init := m[..|m| - 1];
    if i < |m| - 1 {
      assert m[|m| - 1].0 == Keys(m)[|m| - 1] != Keys(m)[i] == m[i].0;
      KeysPrefix(m, |m| - 1);
      GetAt(init, i);
    }
  }

  /** Every entry whose key is `k` gets value `v`; nothing moves. */
  function Replace<V>(m: OMap<V>, k: string, v: V): (r: OMap<V>)
    ensures Keys(r) == Keys(m)
  {
    seq(|m|, i requires 0 <= i < |m| => if m[i].0 == k then (k, v) else m[i])
  }

  lemma {:induction false} ReplaceGet<V>(m: OMap<V>, k: string, v: V, k': string)
    ensures Get(Replace(m, k, v), k') == if k' == k && k in Keys(m) then Some(v) else Get(m, k')
    decreases |m|
  {
    if m != [] {
      var init := m[..|m| - 1];
      assert Replace(m, k, v)[..|m| - 1] == Replace(init, k, v);
      ReplaceGet(init, k, v, k');
      KeysSnoc(init, m[|m| - 1]);
      assert m == init + [m[|m| - 1]];
      GetSome(init, k');
    }
  }

  /** `$m[$k] = $v`. */
  function Assign<V>(m: OMap<V>, k: string, v: V): OMap<V> {
    if k in Keys(m) then Replace(m, k, v) else m + [(k, v)]
  }

  /** Assignment keeps the key order and appends a new key at the end. */
  lemma AssignKeys<V>(m: OMap<V>, k: string, v: V)
    ensures Keys(Assign(m, k, v)) == if k in Keys(m) then Keys(m) else Keys(m) + [k]
    ensures UniqueKeys(m) ==> UniqueKeys(Assign(m, k, v))
  {
    KeysSnoc(m, (k, v));
  }

  /** After `$m[$k] = $v`, `$m[$k]` is `$v` and every other key reads as before. */
  lemma AssignGet<V>(m: OMap<V>, k: string, v: V, k': string)
    ensures Get(Assign(m, k, v), k') == if k' == k then Some(v) else Get(m, k')
  {
    if k in Keys(m) {
      ReplaceGet(m, k, v, k');
    } else {
      assert (m + [(k, v)])[..|m|] == m;
    }
  }

  /**
   * Successive assignment of `es`, in order: building an array in a loop,
   * `array_merge($m, $es)` and `[...$m, ...$es]` for string keys.
   */
  function AssignAll<V>(m: OMap<V>, es: OMap<V>): OMap<V>
    decreases |es|
  {
    if es == [] then m
    else Assign(AssignAll(m, es[..|es| - 1]), es[|es| - 1].0, es[|es| - 1].1)
  }

  lemma AssignAllSnoc<V>(m: OMap<V>, es: OMap<V>, e: (string, V))
    ensures AssignAll(m, es + [e]) == Assign(AssignAll(m, es), e.0, e.1)
  {
    assert (es + [e])[..|es|] == es;
  }

  /** Assigning `es` then `fs` is assigning `es + fs`. */
  lemma {:induction false} AssignAllAppend<V>(m: OMap<V>, es: OMap<V>, fs: OMap<V>)
    ensures AssignAll(m, es + fs) == AssignAll(AssignAll(m, es), fs)
    decreases |fs|
  {
    if fs == [] {
      assert es + fs == es;
    } else {
      var init := fs[..|fs| - 1];
      var f := fs[|fs| - 1];
      assert fs == init + [f];
      assert es + fs == (es + init) + [f];
      AssignAllAppend(m, es, init);
      AssignAllSnoc(m, es + init, f);
      AssignAllSnoc(AssignAll(m, es), init, f);
    }
  }

  /** Merging entries whose keys are all new just appends them. */
  lemma {:induction false} AssignAllFresh<V>(m: OMap<V>, es: OMap<V>)
    requires UniqueKeys(m + es)
    ensures AssignAll(m, es) == m + es
    decreases |es|
  {
    if es != [] {
      var init := es[..|es| - 1];
      var e := es[|es| - 1];
      assert m + es == (m + init) + [e];
      KeysSnoc(m + init, e);
      KeysPrefix(m + es, |m + init|);
      assert (m + es)[..|m + init|] == m + init;
      AssignAllFresh(m, init);
      assert Keys(m + es)[|m + init|] == e.0;
      assert e.0 !in Keys(m + init);
    }
  }

  /** The keys of a merge: those of `m`, then the new keys of `es` in first-seen order. */
  lemma {:induction false} AssignAllKeys<V>(m: OMap<V>, es: OMap<V>)
    requires UniqueKeys(m)
    ensures Keys(AssignAll(m, es)) == Dedup(Keys(m) + Keys(es))
    ensures UniqueKeys(AssignAll(m, es))
    decreases |es|
  {
    if es == [] {
      DedupOfNoDups(Keys(m));
      assert Keys(m) + Keys(es) == Keys(m);
    } else {
      var init := es[..|es| - 1];
      var e := es[|es| - 1];
      AssignAllKeys(m, init);
      AssignKeys(AssignAll(m, init), e.0, e.1);
      KeysSnoc(init, e);
      assert es == init + [e];
      assert Keys(m) + Keys(es) == (Keys(m) + Keys(init)) + [e.0];
      DedupSnoc(Keys(m) + Keys(init), e.0);
      DedupMember(Keys(m) + Keys(init), e.0);
    }
    DedupNoDups(Keys(m) + Keys(es));
  }

  /** A merge is right-biased: a key of `es` reads its last value there, any other key reads as in `m`. */
  lemma {:induction false} AssignAllGet<V>(m: OMap<V>, es: OMap<V>, k: string)
    ensures Get(AssignAll(m, es), k) == if k in Keys(es) then Get(es, k) else Get(m, k)
    decreases |es|
  {
    if es != [] {
      var init := es[..|es| - 1];
      var e := es[|es| - 1];
      AssignAllGet(m, init, k);
      AssignGet(AssignAll(m, init), e.0, e.1, k);
      KeysSnoc(init, e);
      assert es == init + [e];
      GetSome(init, k);
    }
  }

  /** `Collection::only($ks)`: the entries whose key is in `ks`, in their order. */
  function Only<V>(m: OMap<V>, ks: seq<string>): OMap<V>
    decreases |m|
  {
    if m == [] then []
    else
      var init := Only(m[..|m| - 1], ks);
      if m[|m| - 1].0 in ks then init + [m[|m| - 1]] else init
  }

  /** `Collection::except($ks)`: the entries whose key is not in `ks`, in their order. */
  function Except<V>(m: OMap<V>, ks: seq<string>): OMap<V>
    decreases |m|
  {
    if m == [] then []
    else
      var init := Except(m[..|m| - 1], ks);
      if m[|m| - 1].0 in ks then init else init + [m[|m| - 1]]
  }

  lemma {:induction false} OnlyGet<V>(m: OMap<V>, ks: seq<string>, k: string)
    ensures Get(Only(m, ks), k) == if k in ks then Get(m, k) else None
    ensures Get(Except(m, ks), k) == if k in ks then None else Get(m, k)
    decreases |m|
  {
    if m != [] {
      var init := m[..|m| - 1];
      var e := m[|m| - 1];
      OnlyGet(init, ks, k);
      assert (Only(init, ks) + [e])[..|Only(init, ks)|] == Only(init, ks);
      assert (Except(init, ks) + [e])[..|Except(init, ks)|] == Except(init, ks);
    }
  }

  /** Filtering keeps entries in order: the kept keys are the keys of `m` that pass the test. */
  lemma {:induction false} OnlyKeys<V>(m: OMap<V>, ks: seq<string>)
    ensures forall k :: k in Keys(Only(m, ks)) <==> k in Keys(m) && k in ks
    ensures forall k :: k in Keys(Except(m, ks)) <==> k in Keys(m) && k !in ks
    ensures UniqueKeys(m) ==> UniqueKeys(Only(m, ks)) && UniqueKeys(Except(m, ks))
    decreases |m|
  {
    if m != [] {
      var init := m[..|m| - 1];
      var e := m[|m| - 1];
      OnlyKeys(init, ks);
      KeysSnoc(init, e);
      KeysSnoc(Only(init, ks), e);
      KeysSnoc(Except(init, ks), e);
      assert m == init + [e];
      KeysPrefix(m, |m| - 1);
    }
  }

  /** `unset($m[$k])`. */
  function Remove<V>(m: OMap<V>, k: string): OMap<V> {
    Except(m, [k])
  }

  /** `array_unique($m)` on a string-keyed array: an entry survives iff no earlier entry has the same value. */
  function UniqueValues<V(==)>(m: OMap<V>): OMap<V>
    decreases |m|
  {
    if m == [] then []
    else
      var init := m[..|m| - 1];
      if m[|m| - 1].1 in Values(init) then UniqueValues(init) else UniqueValues(init) + [m[|m| - 1]]
  }

  /**
   * The surviving values are the input's values deduplicated (first occurrence
   * kept), and every surviving entry is an entry of the input, keys included.
   */
  lemma {:induction false} UniqueValuesValues<V>(m: OMap<V>)
    ensures Values(UniqueValues(m)) == Dedup(Values(m))
    ensures forall e :: e in UniqueValues(m) ==> e in m
    ensures forall k :: k in Keys(UniqueValues(m)) ==> k in Keys(m)
    decreases |m|
  {
    if m != [] {
      var init := m[..|m| - 1];
      var e := m[|m| - 1];
      UniqueValuesValues(init);
      KeysSnoc(init, e);
      KeysSnoc(UniqueValues(init), e);
      assert m == init + [e];
      DedupSnoc(Values(init), e.1);
    }
  }

  /** With unique keys, the entry at position `i` survives exactly when its value is new at that point. */
  lemma {:induction false} UniqueValuesGet<V>(m: OMap<V>, i: nat)
    requires UniqueKeys(m) && i < |m|
    ensures Get(UniqueValues(m), m[i].0) == if m[i].1 in Values(m[..i]) then None else Some(m[i].1)
    decreases |m|
  {
    var init := m[..|m| - 1];
    var e := m[|m| - 1];
    assert m == init + [e];
    KeysPrefix(m, |m| - 1);
    UniqueValuesValues(init);
    if i == |m| - 1 {
      GetSome(UniqueValues(init), e.0);
      assert (UniqueValues(init) + [e])[..|UniqueValues(init)|] == UniqueValues(init);
    } else {
      assert m[i].0 == Keys(m)[i] != Keys(m)[|m| - 1] == e.0;
      assert init[..i] == m[..i];
      UniqueValuesGet(init, i);
      assert (UniqueValues(init) + [e])[..|UniqueValues(init)|] == UniqueValues(init);
    }
  }
}
