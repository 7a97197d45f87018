/** A Python `dict` as the program uses it: a list of (key, value) entries in
    insertion order. Assigning to an existing key keeps its position, a new key
    goes to the end, `del` takes the entry out, and `update` assigns entry by
    entry. Every dictionary the program builds has distinct keys. */
module PyDict {
  import opened Wrappers

  type Dict<K(==,!new), V> = seq<(K, V)>

  /** The keys in iteration order. */
  function Keys<K(==,!new), V>(d: Dict<K, V>): (ks: seq<K>)
    ensures |ks| == |d|
    ensures forall i :: 0 <= i < |d| ==> ks[i] == d[i].0
  {
    if d == [] then [] else [d[0].0] + Keys(d[1..])
  }

  predicate UniqueKeys<K(==,!new), V>(d: Dict<K, V>) {
    forall i, j :: 0 <= i < j < |d| ==> d[i].0 != d[j].0
  }

  predicate HasKey<K(==,!new), V>(d: Dict<K, V>, k: K) {
    exists i :: 0 <= i < |d| && d[i].0 == k
  }

  /** A key is in a non-empty dictionary when it is the first key or a later one. */
  lemma HasKeyCons<K(!new), V>(d: Dict<K, V>, k: K)
    requires d != []
    ensures HasKey(d, k) <==> d[0].0 == k || HasKey(d[1..], k)
  {
    if HasKey(d, k) && d[0].0 != k {
      var i :| 0 <= i < |d| && d[i].0 == k;
      assert d[1..][i - 1].0 == k;
    }
    if HasKey(d[1..], k) {
      var i :| 0 <= i < |d| - 1 && d[1..][i].0 == k;
      assert d[i + 1].0 == k;
    }
  }

  /** `d.get(k)`: the value of the entry with key `k`, `None` when there is none. */
  function Get<K(==,!new), V>(d: Dict<K, V>, k: K): (r: Option<V>)
    ensures r.None? <==> !HasKey(d, k)
    ensures r.Some? ==> exists i :: 0 <= i < |d| && d[i] == (k, r.value)
  {
    if d == [] then None
    else if d[0].0 == k then Some(d[0].1)
    else
      var r := Get(d[1..], k);
      assert forall i :: 0 <= i < |d| - 1 ==> d[1..][i] == d[i + 1];
      assert r.None? <==> !HasKey(d, k) by {
        if HasKey(d, k) {
          var i :| 0 <= i < |d| && d[i].0 == k;
          assert d[1..][i - 1].0 == k;
        }
      }
      r
  }

  /** With distinct keys, the entry at position `i` is what `get` finds for its key. */
  lemma {:induction false} GetAt<K(!new), V>(d: Dict<K, V>, i: int)
    requires UniqueKeys(d) && 0 <= i < |d|
    ensures Get(d, d[i].0) == Some(d[i].1)
  {
    if i > 0 {
      assert d[0].0 != d[i].0;
      assert d[1..][i - 1] == d[i];
      GetAt(d[1..], i - 1);
    }
  }

  /** `d[k] = v`: an existing entry keeps its place, a new one goes last. */
  function Put<K(==,!new), V>(d: Dict<K, V>, k: K, v: V): (r: Dict<K, V>)
    ensures |d| <= |r| <= |d| + 1
  {
    if d == [] then [(k, v)]
    else if d[0].0 == k then [(k, v)] + d[1..]
    else [d[0]] + Put(d[1..], k, v)
  }

  /** After `d[k] = v`, `k` reads `v` and every other key reads what it read before. */
  lemma {:induction false} PutGet<K(!new), V>(d: Dict<K, V>, k: K, v: V, k': K)
    ensures Get(Put(d, k, v), k') == if k' == k then Some(v) else Get(d, k')
  {
    var r := Put(d, k, v);
    if d != [] {
      assert r[1..] == (if d[0].0 == k then d[1..] else Put(d[1..], k, v));
      if d[0].0 != k {
        PutGet(d[1..], k, v, k');
      }
    }
  }

  /** Assigning to a key that is present changes no key and no position. */
  lemma {:induction false} PutKeys<K(!new), V>(d: Dict<K, V>, k: K, v: V)
    requires HasKey(d, k)
    ensures Keys(Put(d, k, v)) == Keys(d)
  {
    var r := Put(d, k, v);
    HasKeyCons(d, k);
    if d[0].0 == k {
      assert r[1..] == d[1..];
    } else {
      PutKeys(d[1..], k, v);
      assert r[1..] == Put(d[1..], k, v);
    }
  }

  /** Assigning to a new key appends its entry. */
  lemma {:induction false} PutNew<K(!new), V>(d: Dict<K, V>, k: K, v: V)
    requires !HasKey(d, k)
    ensures Put(d, k, v) == d + [(k, v)]
  {
    if d != [] {
      HasKeyCons(d, k);
      PutNew(d[1..], k, v);
      assert d == [d[0]] + d[1..];
    }
  }

  /** Assigning a new key keeps the keys distinct; so does assigning an old one. */
  lemma {:induction false} PutUnique<K(!new), V>(d: Dict<K, V>, k: K, v: V)
    ensures UniqueKeys(d) ==> UniqueKeys(Put(d, k, v))
  {
    var r := Put(d, k, v);
    if !UniqueKeys(d) {
    } else if HasKey(d, k) {
      PutKeys(d, k, v);
      var ks := Keys(r);
      assert ks == Keys(d);
      forall i, j | 0 <= i < j < |r|
        ensures r[i].0 != r[j].0
      {
        assert r[i].0 == ks[i] && r[j].0 == ks[j];
      }
    } else {
      PutNew(d, k, v);
      forall i, j | 0 <= i < j < |r|
        ensures r[i].0 != r[j].0
      {
        if j == |d| {
          assert r[j].0 == k && r[i] == d[i];
        }
      }
    }
  }

  /** Assigning twice to the same key keeps only the second value. */
  lemma {:induction false} PutPut<K(!new), V>(d: Dict<K, V>, k: K, v: V, w: V)
    ensures Put(Put(d, k, v), k, w) == Put(d, k, w)
  {
    if d != [] && d[0].0 != k {
      PutPut(d[1..], k, v, w);
      assert Put(d, k, v)[1..] == Put(d[1..], k, v);
    }
  }

  /** `del d[k]`: the entry with key `k` goes, the others stay in order. */
  function Remove<K(==,!new), V>(d: Dict<K, V>, k: K): (r: Dict<K, V>)
    ensures Get(r, k) == None
    ensures forall k' :: k' != k ==> Get(r, k') == Get(d, k')
    ensures UniqueKeys(d) ==> UniqueKeys(r)
    ensures |r| <= |d|
  {
    if d == [] then []
    else if d[0].0 == k then Remove(d[1..], k)
    else
      var rest := Remove(d[1..], k);
      var r := [d[0]] + rest;
      assert UniqueKeys(d) ==> UniqueKeys(r) by {
        if UniqueKeys(d) {
          assert UniqueKeys(d[1..]);
          assert !HasKey(d[1..], d[0].0);
          assert Get(rest, d[0].0) == None;
          forall j | 0 < j < |r|
            ensures r[0].0 != r[j].0
          {
            assert rest[j - 1] == r[j];
          }
        }
      }
      r
  }

  /** Removing a key forgets what was last assigned to it. */
  lemma {:induction false} RemoveAfterPut<K(!new), V>(d: Dict<K, V>, k: K, v: V)
    ensures Remove(Put(d, k, v), k) == Remove(d, k)
  {
    if d != [] && d[0].0 != k {
      RemoveAfterPut(d[1..], k, v);
      assert Put(d, k, v)[1..] == Put(d[1..], k, v);
    }
  }

  /** `d.update(e)`: assigns every entry of `e` in turn. */
  function Update<K(==,!new), V>(d: Dict<K, V>, e: Dict<K, V>): (r: Dict<K, V>)
    ensures UniqueKeys(d) ==> UniqueKeys(r)
    decreases |e|
  {
    if e == [] then d
    else
      var d' := Put(d, e[0].0, e[0].1);
      PutUnique(d, e[0].0, e[0].1);
      Update(d', e[1..])
  }

  /** After `update`, the keys of `e` read their new values and every other key its old one. */
  lemma {:induction false} UpdateGet<K(!new), V>(d: Dict<K, V>, e: Dict<K, V>, k: K)
    requires UniqueKeys(e)
    ensures Get(Update(d, e), k) == (if HasKey(e, k) then Get(e, k) else Get(d, k))
    decreases |e|
  {
    if e != [] {
      var d' := Put(d, e[0].0, e[0].1);
      UpdateGet(d', e[1..], k);
      PutGet(d, e[0].0, e[0].1, k);
      HasKeyCons(e, k);
      if e[0].0 == k {
        assert !HasKey(e[1..], k);
      }
    }
  }
}
