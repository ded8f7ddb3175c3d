/**
 * Ordered key/value lists: the model of a Python `dict` of profiles (profile name to
 * settings) and of one profile's settings (key to string value). Python dictionaries keep
 * insertion order and have distinct keys; the lists here keep order and `Unique` states
 * the distinctness where a proof needs it.
 */
module Profiles {
  import opened Wrappers

  type Pairs<V> = seq<(string, V)>

  /** The settings of one profile, or one section of the credentials file. */
  type Settings = Pairs<string>

  /** The keys in iteration order (`dict.keys()`). */
  function Keys<V>(m: Pairs<V>): (ks: seq<string>)
    ensures |ks| == |m|
    ensures forall i :: 0 <= i < |m| ==> ks[i] == m[i].0
  {
    if m == [] then [] else [m[0].0] + Keys(m[1..])
  }

  /** No key occurs twice. */
  ghost predicate Unique<V>(m: Pairs<V>) {
    forall i, j :: 0 <= i < j < |m| ==> m[i].0 != m[j].0
  }

  /** `dict.get(k)`: the value stored under the first occurrence of `k`, or `None`. */
  function Get<V>(m: Pairs<V>, k: string): Option<V>
  {
    if m == [] then None
    else if m[0].0 == k then Some(m[0].1)
    else Get(m[1..], k)
  }

  /** `dict.get(k)` finds a value exactly when `k` is a key, and that value is stored under `k`. */
  lemma {:induction false} GetFound<V>(m: Pairs<V>, k: string)
    ensures Get(m, k).Some? <==> k in Keys(m)
    ensures Get(m, k).Some? ==> exists i :: 0 <= i < |m| && m[i] == (k, Get(m, k).value)
  {
    if m != [] && m[0].0 != k {
      GetFound(m[1..], k);
      assert Keys(m) == [m[0].0] + Keys(m[1..]);
      if Get(m, k).Some? {
        var i :| 0 <= i < |m[1..]| && m[1..][i] == (k, Get(m, k).value);
        assert m[i + 1] == (k, Get(m, k).value);
      }
    }
  }

  /** In a list with distinct keys, the entry at position `i` is what `Get` finds. */
  lemma {:induction false} GetAt<V>(m: Pairs<V>, i: nat)
    requires Unique(m) && i < |m|
    ensures Get(m, m[i].0) == Some(m[i].1)
  {
    if i > 0 {
      assert m[0].0 != m[i].0;
      assert m[1..][i - 1] == m[i];
      GetAt(m[1..], i - 1);
    }
  }

  /** `d[k] = v`: overwrites the value of an existing key in place, or appends the key. */
  function Put<V>(m: Pairs<V>, k: string, v: V): Pairs<V>
  {
    if m == [] then [(k, v)]
    else if m[0].0 == k then [(k, v)] + m[1..]
    else [m[0]] + Put(m[1..], k, v)
  }

  /** After `d[k] = v`, `d.get(k)` is `v` and every other key reads as before. */
  lemma {:induction false} PutGet<V>(m: Pairs<V>, k: string, v: V, j: string)
    ensures Get(Put(m, k, v), j) == if j == k then Some(v) else Get(m, j)
  {
    if m != [] && m[0].0 != k {
      PutGet(m[1..], k, v, j);
      assert Put(m, k, v)[1..] == Put(m[1..], k, v);
    }
  }

  /** `PutGet` for every key at once. */
  lemma PutGetAll<V>(m: Pairs<V>, k: string, v: V)
    ensures Get(Put(m, k, v), k) == Some(v)
    ensures forall j :: j != k ==> Get(Put(m, k, v), j) == Get(m, j)
  {
    PutGet(m, k, v, k);
    forall j | j != k ensures Get(Put(m, k, v), j) == Get(m, j) {
      PutGet(m, k, v, j);
    }
  }

  /** `d[k] = v` keeps the key order; a new key goes to the end. */
  lemma {:induction false} PutKeys<V>(m: Pairs<V>, k: string, v: V)
    ensures Keys(Put(m, k, v)) == if k in Keys(m) then Keys(m) else Keys(m) + [k]
  {
    if m != [] && m[0].0 != k {
      PutKeys(m[1..], k, v);
      assert Put(m, k, v)[1..] == Put(m[1..], k, v);
      assert Keys(m) == [m[0].0] + Keys(m[1..]);
    }
  }

  /** `d[k] = v` never introduces a duplicate key. */
  lemma PutUnique<V>(m: Pairs<V>, k: string, v: V)
    requires Unique(m)
    ensures Unique(Put(m, k, v))
  {
    PutKeys(m, k, v);
    var r := Put(m, k, v);
    forall i, j | 0 <= i < j < |r| ensures r[i].0 != r[j].0 {
      assert Keys(r)[i] == r[i].0 && Keys(r)[j] == r[j].0;
      assert Keys(m)[..|m|] == Keys(m);
      if j < |m| {
        assert Keys(m)[i] == m[i].0 && Keys(m)[j] == m[j].0;
      } else {
        assert Keys(r)[j] == k && k !in Keys(m) && Keys(r)[i] == Keys(m)[i];
      }
    }
  }

  /**
   * Python truthiness of an optional string: present and not empty. A missing key
   * (`None`) and an empty value are both false.
   */
  predicate Truthy(v: Option<string>) {
    v.Some? && v.value != ""
  }

  /** `s.endswith(suffix)`. */
  predicate EndsWith(s: string, suffix: string) {
    |suffix| <= |s| && s[|s| - |suffix|..] == suffix
  }

  /** The names of the entries that `keep` selects, in iteration order. */
  function SelectNames<V>(m: Pairs<V>, keep: ((string, V)) -> bool): seq<string>
  {
    if m == [] then []
    else SelectNames(m[..|m| - 1], keep) + (if keep(m[|m| - 1]) then [m[|m| - 1].0] else [])
  }

  /** A name is selected exactly when some entry of that name is kept. */
  lemma {:induction false} SelectNamesMembers<V>(m: Pairs<V>, keep: ((string, V)) -> bool, n: string)
    ensures n in SelectNames(m, keep) <==> exists i :: 0 <= i < |m| && m[i].0 == n && keep(m[i])
  {
    if m != [] {
      var init := m[..|m| - 1];
      SelectNamesMembers(init, keep, n);
      if exists i :: 0 <= i < |init| && init[i].0 == n && keep(init[i]) {
        var i :| 0 <= i < |init| && init[i].0 == n && keep(init[i]);
        assert m[i] == init[i];
      }
      if exists i :: 0 <= i < |m| && m[i].0 == n && keep(m[i]) {
        var i :| 0 <= i < |m| && m[i].0 == n && keep(m[i]);
        if i < |init| { assert init[i] == m[i]; }
      }
    }
  }
}
