/**
 * The theme parser's registries are JavaScript `Map`s filled by loops of
 * `Map.set(key, value)`. `Insert` is that loop as a function: the pairs are
 * set one after another, so a later pair overwrites an earlier one with the
 * same key.
 */
module Registry {
  import opened Wrappers

  /** The map after `m.set(k, v)` for every pair `(k, v)` of `kvs`, in order. */
  function Insert<K, V>(m: map<K, V>, kvs: seq<(K, V)>): (r: map<K, V>)
    ensures m.Keys <= r.Keys
    decreases |kvs|
  {
    if kvs == [] then m
    else Insert(m, kvs[..|kvs| - 1])[kvs[|kvs| - 1].0 := kvs[|kvs| - 1].1]
  }

  /** The keys that `kvs` sets. */
  function KeysOf<K, V>(kvs: seq<(K, V)>): set<K>
  {
    set i | 0 <= i < |kvs| :: kvs[i].0
  }

  /** Setting one more pair is one more map update: the step of every loader loop. */
  lemma InsertSnoc<K, V>(m: map<K, V>, kvs: seq<(K, V)>, kv: (K, V))
    ensures Insert(m, kvs + [kv]) == Insert(m, kvs)[kv.0 := kv.1]
  {
    assert (kvs + [kv])[..|kvs|] == kvs;
  }

  /** Setting the pairs of `a` and then those of `b` sets the pairs of `a + b`. */
  lemma {:induction false} InsertAppend<K, V>(m: map<K, V>, a: seq<(K, V)>, b: seq<(K, V)>)
    ensures Insert(m, a + b) == Insert(Insert(m, a), b)
    decreases |b|
  {
    if b == [] {
      assert a + b == a;
    } else {
      var init := b[..|b| - 1];
      assert (a + b)[..|a + b| - 1] == a + init;
      InsertAppend(m, a, init);
    }
  }

  /** The registry holds exactly the old keys and the keys that were set. */
  lemma {:induction false} InsertKeys<K, V>(m: map<K, V>, kvs: seq<(K, V)>)
    ensures Insert(m, kvs).Keys == m.Keys + KeysOf(kvs)
    decreases |kvs|
  {
    if kvs != [] {
      var init := kvs[..|kvs| - 1];
      InsertKeys(m, init);
      assert KeysOf(kvs) == KeysOf(init) + {kvs[|kvs| - 1].0} by {
        forall k | k in KeysOf(kvs) ensures k in KeysOf(init) + {kvs[|kvs| - 1].0} {
          var i :| 0 <= i < |kvs| && kvs[i].0 == k;
          if i < |kvs| - 1 { assert init[i] == kvs[i]; }
        }
        forall k | k in KeysOf(init) ensures k in KeysOf(kvs) {
          var i :| 0 <= i < |init| && init[i].0 == k;
          assert kvs[i] == init[i];
        }
      }
    }
  }

  /** Last writer wins: the value under a key is the one of the last pair that sets it. */
  lemma {:induction false} InsertLast<K, V>(m: map<K, V>, kvs: seq<(K, V)>, i: nat)
    requires i < |kvs|
    requires forall j | i < j < |kvs| :: kvs[j].0 != kvs[i].0
    ensures kvs[i].0 in Insert(m, kvs) && Insert(m, kvs)[kvs[i].0] == kvs[i].1
    decreases |kvs|
  {
    if i < |kvs| - 1 {
      var init := kvs[..|kvs| - 1];
      assert init[i] == kvs[i];
      forall j | i < j < |init| ensures init[j].0 != init[i].0 {
        assert init[j] == kvs[j];
      }
      InsertLast(m, init, i);
    }
  }

  /** A key that no pair sets keeps its old value, or stays absent. */
  lemma {:induction false} InsertKeeps<K, V>(m: map<K, V>, kvs: seq<(K, V)>, k: K)
    requires forall j | 0 <= j < |kvs| :: kvs[j].0 != k
    ensures Lookup(Insert(m, kvs), k) == Lookup(m, k)
    decreases |kvs|
  {
    if kvs != [] {
      var init := kvs[..|kvs| - 1];
      forall j | 0 <= j < |init| ensures init[j].0 != k {
        assert init[j] == kvs[j];
      }
      InsertKeeps(m, init, k);
    }
  }

  /** Every entry of the registry is an old entry or one of the pairs that were set. */
  lemma {:induction false} InsertOrigin<K, V>(m: map<K, V>, kvs: seq<(K, V)>, k: K)
    requires k in Insert(m, kvs)
    ensures (exists i | 0 <= i < |kvs| :: kvs[i] == (k, Insert(m, kvs)[k]))
            || (k in m && Insert(m, kvs)[k] == m[k])
    decreases |kvs|
  {
    if kvs != [] {
      var init := kvs[..|kvs| - 1];
      var last := |kvs| - 1;
      if kvs[last].0 != k {
        InsertOrigin(m, init, k);
        if exists i | 0 <= i < |init| :: init[i] == (k, Insert(m, init)[k]) {
          var i :| 0 <= i < |init| && init[i] == (k, Insert(m, init)[k]);
          assert kvs[i] == init[i];
        }
      } else {
        assert kvs[last] == (k, Insert(m, kvs)[k]);
      }
    }
  }

  /**
   * The length of the longest prefix of `xs` whose elements all satisfy `ok`:
   * where a loader loop stops when the element at that index throws.
   */
  function PrefixWhere<T>(xs: seq<T>, ok: T -> bool): (n: nat)
    ensures n <= |xs|
    ensures forall i | 0 <= i < n :: ok(xs[i])
    ensures n < |xs| ==> !ok(xs[n])
    decreases |xs|
  {
    if xs == [] || !ok(xs[0]) then 0 else 1 + PrefixWhere(xs[1..], ok)
  }

  /** A loop that checks every element up to `i` and fails on `xs[i]` stops where `PrefixWhere` says. */
  lemma PrefixWhereAt<T>(xs: seq<T>, ok: T -> bool, i: nat)
    requires i <= |xs|
    requires forall j | 0 <= j < i :: ok(xs[j])
    requires i == |xs| || !ok(xs[i])
    ensures PrefixWhere(xs, ok) == i
  {
    var n := PrefixWhere(xs, ok);
    assert n <= i by {
      if i < |xs| { assert !ok(xs[i]); }
    }
    assert n >= i by {
      if n < |xs| { assert !ok(xs[n]); }
    }
  }
}
