/**
 * PHP arrays. A PHP array is an ORDERED map: it is modelled as a sequence
 * of key/value pairs whose keys are pairwise distinct, in insertion order.
 * Assignment (`$m[$k] = $v`), `unset`, lookup and `array_replace` are
 * defined here and proved to keep that shape.
 */
module PhpArray {
  import opened Wrappers

  type Entry<K, V> = (K, V)

  /** The keys of an ordered map, in their order. */
  function Keys<K(==), V>(m: seq<Entry<K, V>>): (ks: seq<K>)
    ensures |ks| == |m|
    ensures forall i :: 0 <= i < |m| ==> ks[i] == m[i].0
  {
    seq(|m|, i requires 0 <= i < |m| => m[i].0)
  }

  lemma KeysCons<K, V>(m: seq<Entry<K, V>>)
    requires m != []
    ensures Keys(m) == [m[0].0] + Keys(m[1..])
  {
    assert Keys(m)[1..] == Keys(m[1..]);
  }

  /** No key occurs twice. */
  ghost predicate Distinct<K>(ks: seq<K>) {
    forall i, j :: 0 <= i < j < |ks| ==> ks[i] != ks[j]
  }

  /** Every key occurs once: what every PHP array satisfies. */
  ghost predicate DistinctKeys<K, V>(m: seq<Entry<K, V>>) {
    Distinct(Keys(m))
  }

  lemma KeysTail<K, V>(m: seq<Entry<K, V>>)
    requires m != [] && DistinctKeys(m)
    ensures DistinctKeys(m[1..])
    ensures m[0].0 !in Keys(m[1..])
  {
    KeysCons(m);
    var ks := Keys(m);
    forall i, j | 0 <= i < j < |ks| - 1 ensures ks[1..][i] != ks[1..][j] {
      assert ks[1..][i] == ks[i + 1] && ks[1..][j] == ks[j + 1];
    }
    forall i | 0 <= i < |ks| - 1 ensures ks[1..][i] != ks[0] {
      assert ks[1..][i] == ks[i + 1];
    }
  }

  /** `$m[$k]` when `isset`, otherwise None. */
  function Lookup<K(==), V>(m: seq<Entry<K, V>>, k: K): (r: Option<V>)
    ensures r.None? <==> k !in Keys(m)
  {
    if m == [] then None
    else if m[0].0 == k then Some(m[0].1)
    else KeysCons(m); Lookup(m[1..], k)
  }

  /** `$m[$k] = $v`: an existing key keeps its position, a new key is appended. */
  function Put<K(==), V>(m: seq<Entry<K, V>>, k: K, v: V): seq<Entry<K, V>>
  {
    if m == [] then [(k, v)]
    else if m[0].0 == k then [(k, v)] + m[1..]
    else [m[0]] + Put(m[1..], k, v)
  }

  /** PHP's `array_replace($base, $over)`: every entry of `over`, in order, assigned into `base`. */
  function Replace<K(==), V>(base: seq<Entry<K, V>>, over: seq<Entry<K, V>>): seq<Entry<K, V>>
    decreases |over|
  {
    if over == [] then base
    else Replace(Put(base, over[0].0, over[0].1), over[1..])
  }

  /** The keys of `ks2` that are not in `ks1`, in `ks2`'s order. */
  function NewKeys<K(==)>(ks1: seq<K>, ks2: seq<K>): (r: seq<K>)
    ensures ks1 == [] ==> r == ks2
  {
    if ks2 == [] then []
    else if ks2[0] in ks1 then NewKeys(ks1, ks2[1..])
    else [ks2[0]] + NewKeys(ks1, ks2[1..])
  }

  lemma {:induction false} NewKeysMembers<K>(ks1: seq<K>, ks2: seq<K>, k: K)
    ensures k in NewKeys(ks1, ks2) <==> k in ks2 && k !in ks1
  {
    if ks2 != [] {
      NewKeysMembers(ks1, ks2[1..], k);
    }
  }

  // ---------------------------------------------------------------------
  // Assignment of one key

  lemma {:induction false} KeysPut<K, V>(m: seq<Entry<K, V>>, k: K, v: V)
    ensures Keys(Put(m, k, v)) == if k in Keys(m) then Keys(m) else Keys(m) + [k]
  {
    if m != [] {
      KeysCons(m);
      KeysCons(Put(m, k, v));
      if m[0].0 != k {
        KeysPut(m[1..], k, v);
      }
    }
  }

  lemma {:induction false} LookupPut<K, V>(m: seq<Entry<K, V>>, k: K, v: V, j: K)
    ensures Lookup(Put(m, k, v), j) == if j == k then Some(v) else Lookup(m, j)
  {
    if m != [] && m[0].0 != k {
      LookupPut(m[1..], k, v, j);
    }
  }

  lemma PutDistinct<K, V>(m: seq<Entry<K, V>>, k: K, v: V)
    requires DistinctKeys(m)
    ensures DistinctKeys(Put(m, k, v))
  {
    KeysPut(m, k, v);
  }

  /** `unset($m[$k])`: the entry under `k`, if any, is removed and the others keep their order. */
  function Unset<K(==), V>(m: seq<Entry<K, V>>, k: K): seq<Entry<K, V>>
  {
    if m == [] then []
    else if m[0].0 == k then Unset(m[1..], k)
    else [m[0]] + Unset(m[1..], k)
  }

  /** After `unset` the key is gone and every other key keeps its value. */
  lemma {:induction false} LookupUnset<K, V>(m: seq<Entry<K, V>>, k: K, j: K)
    ensures Lookup(Unset(m, k), j) == if j == k then None else Lookup(m, j)
  {
    if m != [] {
      LookupUnset(m[1..], k, j);
    }
  }

  /** `unset` keeps a PHP array a PHP array; removing a present key shortens it by one. */
  lemma {:induction false} UnsetDistinct<K, V>(m: seq<Entry<K, V>>, k: K)
    requires DistinctKeys(m)
    ensures DistinctKeys(Unset(m, k))
    ensures forall j :: j in Keys(Unset(m, k)) <==> j in Keys(m) && j != k
    ensures |Unset(m, k)| == if k in Keys(m) then |m| - 1 else |m|
  {
    if m != [] {
      KeysCons(m);
      KeysTail(m);
      UnsetDistinct(m[1..], k);
      var r := Unset(m[1..], k);
      if m[0].0 != k {
        KeysCons([m[0]] + r);
        assert ([m[0]] + r)[1..] == r;
      }
    }
  }

  // ---------------------------------------------------------------------
  // array_replace

  /** The result of `array_replace` is again a PHP array: its keys are distinct. */
  lemma {:induction false} ReplaceDistinct<K, V>(base: seq<Entry<K, V>>, over: seq<Entry<K, V>>)
    requires DistinctKeys(base)
    ensures DistinctKeys(Replace(base, over))
    decreases |over|
  {
    if over != [] {
      PutDistinct(base, over[0].0, over[0].1);
      ReplaceDistinct(Put(base, over[0].0, over[0].1), over[1..]);
    }
  }

  /** After a merge a key absent from the new array keeps its old value (or stays absent). */
  lemma {:induction false} ReplaceKeeps<K, V>(base: seq<Entry<K, V>>, over: seq<Entry<K, V>>, k: K)
    requires k !in Keys(over)
    ensures Lookup(Replace(base, over), k) == Lookup(base, k)
    decreases |over|
  {
    if over != [] {
      KeysCons(over);
      LookupPut(base, over[0].0, over[0].1, k);
      ReplaceKeeps(Put(base, over[0].0, over[0].1), over[1..], k);
    }
  }

  /** After a merge every key of the new array maps to the new array's value. */
  lemma {:induction false} ReplaceOverrides<K, V>(base: seq<Entry<K, V>>, over: seq<Entry<K, V>>, k: K)
    requires DistinctKeys(over)
    requires k in Keys(over)
    ensures Lookup(Replace(base, over), k) == Lookup(over, k)
    decreases |over|
  {
    var b1 := Put(base, over[0].0, over[0].1);
    KeysCons(over);
    KeysTail(over);
    if over[0].0 == k {
      LookupPut(base, over[0].0, over[0].1, k);
      ReplaceKeeps(b1, over[1..], k);
    } else {
      ReplaceOverrides(b1, over[1..], k);
    }
  }

  lemma {:induction false} NewKeysSkip<K>(ks: seq<K>, x: seq<K>, ks2: seq<K>)
    requires forall k :: k in x ==> k !in ks2
    ensures NewKeys(ks + x, ks2) == NewKeys(ks, ks2)
  {
    if ks2 != [] {
      NewKeysSkip(ks, x, ks2[1..]);
    }
  }

  lemma {:induction false} NewKeysCovered<K>(ks1: seq<K>, ks2: seq<K>)
    requires forall k :: k in ks2 ==> k in ks1
    ensures NewKeys(ks1, ks2) == []
  {
    if ks2 != [] {
      NewKeysCovered(ks1, ks2[1..]);
    }
  }

  /**
   * Key order after a merge: the old keys keep their positions and the new
   * keys follow, in the order of the new array.
   */
  lemma {:induction false} ReplaceKeys<K, V>(base: seq<Entry<K, V>>, over: seq<Entry<K, V>>)
    requires DistinctKeys(over)
    ensures Keys(Replace(base, over)) == Keys(base) + NewKeys(Keys(base), Keys(over))
    decreases |over|
  {
    if over != [] {
      var k := over[0].0;
      var b1 := Put(base, k, over[0].1);
      var rest := Keys(over[1..]);
      var ks := Keys(base);
      assert Keys(over) == [k] + rest && k !in rest && DistinctKeys(over[1..]) by {
        KeysCons(over);
        KeysTail(over);
      }
      assert Keys(b1) == if k in ks then ks else ks + [k] by {
        KeysPut(base, k, over[0].1);
      }
      assert Keys(Replace(b1, over[1..])) == Keys(b1) + NewKeys(Keys(b1), rest) by {
        ReplaceKeys(b1, over[1..]);
      }
      var ko := Keys(over);
      assert ko != [] && ko[0] == k && ko[1..] == rest;
      if k !in ks {
        assert NewKeys(ks + [k], rest) == NewKeys(ks, rest) by { NewKeysSkip(ks, [k], rest); }
        assert NewKeys(ks, ko) == [k] + NewKeys(ks, rest);
        AppendAssoc(ks, [k], NewKeys(ks, rest));
      } else {
        assert NewKeys(ks, ko) == NewKeys(ks, rest);
      }
    }
  }

  /** The key set after a merge is the union of the old and the new key sets. */
  lemma ReplaceKeySet<K, V>(base: seq<Entry<K, V>>, over: seq<Entry<K, V>>)
    requires DistinctKeys(over)
    ensures forall k :: k in Keys(Replace(base, over)) <==> k in Keys(base) || k in Keys(over)
  {
    ReplaceKeys(base, over);
    forall k ensures k in Keys(Replace(base, over)) <==> k in Keys(base) || k in Keys(over) {
      NewKeysMembers(Keys(base), Keys(over), k);
    }
  }

  /** Merging an empty array changes nothing. */
  lemma ReplaceEmpty<K, V>(base: seq<Entry<K, V>>)
    ensures Replace(base, []) == base
  {
  }

  /** In a PHP array the value found under the key at position `i` is the value at position `i`. */
  lemma {:induction false} LookupAt<K, V>(m: seq<Entry<K, V>>, i: nat)
    requires DistinctKeys(m) && i < |m|
    ensures Lookup(m, m[i].0) == Some(m[i].1)
  {
    if i > 0 {
      KeysTail(m);
      assert m[1..][i - 1] == m[i];
      assert Keys(m)[0] != Keys(m)[i];
      LookupAt(m[1..], i - 1);
    }
  }

  /** Two PHP arrays with the same keys in the same order and the same values are equal. */
  lemma Extensional<K, V>(m1: seq<Entry<K, V>>, m2: seq<Entry<K, V>>)
    requires DistinctKeys(m1) && DistinctKeys(m2)
    requires Keys(m1) == Keys(m2)
    requires forall k :: Lookup(m1, k) == Lookup(m2, k)
    ensures m1 == m2
  {
    forall i | 0 <= i < |m1| ensures m1[i] == m2[i] {
      assert Keys(m1)[i] == Keys(m2)[i];
      LookupAt(m1, i);
      LookupAt(m2, i);
    }
  }

  /** Merging the same array twice is the same as merging it once. */
  lemma ReplaceIdempotent<K, V>(base: seq<Entry<K, V>>, over: seq<Entry<K, V>>)
    requires DistinctKeys(base) && DistinctKeys(over)
    ensures Replace(Replace(base, over), over) == Replace(base, over)
  {
    var once := Replace(base, over);
    var twice := Replace(once, over);
    ReplaceDistinct(base, over);
    ReplaceDistinct(once, over);
    ReplaceKeys(base, over);
    ReplaceKeys(once, over);
    ReplaceKeySet(base, over);
    NewKeysCovered(Keys(once), Keys(over));
    forall k ensures Lookup(twice, k) == Lookup(once, k) {
      if k in Keys(over) {
        ReplaceOverrides(once, over, k);
        ReplaceOverrides(base, over, k);
      } else {
        ReplaceKeeps(once, over, k);
      }
    }
    Extensional(twice, once);
  }

  /** Building a store from a PHP array yields that very array. */
  lemma FromArray<K, V>(init: seq<Entry<K, V>>)
    requires DistinctKeys(init)
    ensures Replace([], init) == init
  {
    var r := Replace([], init);
    ReplaceDistinct([], init);
    ReplaceKeys([], init);
    forall k ensures Lookup(r, k) == Lookup(init, k) {
      if k in Keys(init) {
        ReplaceOverrides([], init, k);
      } else {
        ReplaceKeeps([], init, k);
      }
    }
    Extensional(r, init);
  }
}
