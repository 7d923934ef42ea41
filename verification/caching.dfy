/** The memoizing store behind `createCache` and `createParametrizedCache`:
    a map filled on demand. A lookup that misses computes the value, stores it
    and returns it; a lookup that hits returns the stored value without
    computing again. Nothing is ever evicted. */
module Caching {

  /** Every stored entry is what the store's computation gives for its key. */
  ghost predicate Consistent<K, V>(m: map<K, V>, compute: K -> V) {
    forall k :: k in m ==> m[k] == compute(k)
  }

  /** One lookup on a store in state `m`: the value returned and the state
      after the lookup. */
  function Lookup<K(==), V>(m: map<K, V>, compute: K -> V, key: K): (r: (V, map<K, V>))
    ensures Consistent(m, compute) ==> r.0 == compute(key) && Consistent(r.1, compute)
    ensures r.1.Keys == m.Keys + {key}
    ensures key in r.1 && r.1[key] == r.0
    ensures forall k :: k in m ==> k in r.1 && r.1[k] == m[k]
    ensures key in m ==> r.1 == m
  {
    if key in m then (m[key], m) else (compute(key), m[key := compute(key)])
  }

  /** A run of lookups, one after the other, from state `m`. */
  function LookupAll<K(==), V>(m: map<K, V>, compute: K -> V, keys: seq<K>): (r: (seq<V>, map<K, V>))
    ensures |r.0| == |keys|
    decreases |keys|
  {
    if keys == [] then ([], m)
    else
      var (v, m1) := Lookup(m, compute, keys[0]);
      var (vs, m2) := LookupAll(m1, compute, keys[1..]);
      ([v] + vs, m2)
  }

  /** The keys of a run. */
  function Elements<K>(keys: seq<K>): set<K> {
    set i | 0 <= i < |keys| :: keys[i]
  }

  /** The keys of a non-empty run are its first key and the keys of the rest. */
  lemma ElementsCons<K>(keys: seq<K>)
    requires keys != []
    ensures Elements(keys) == {keys[0]} + Elements(keys[1..])
  {
    forall k | k in Elements(keys) ensures k in {keys[0]} + Elements(keys[1..]) {
      var i :| 0 <= i < |keys| && keys[i] == k;
      if i > 0 {
        assert keys[1..][i - 1] == k;
      }
    }
    forall k | k in Elements(keys[1..]) ensures k in Elements(keys) {
      var i :| 0 <= i < |keys[1..]| && keys[1..][i] == k;
      assert keys[i + 1] == k;
    }
  }

  /** Counting the new keys of `{k0} + rest` against `known`: `k0` counts
      once if it is new, and the rest counts against `known + {k0}`. */
  lemma NewKeysCons<K>(known: set<K>, k0: K, rest: set<K>)
    ensures |({k0} + rest) - known| == (if k0 in known then 0 else 1) + |rest - (known + {k0})|
  {
    var later := rest - (known + {k0});
    if k0 in known {
      assert ({k0} + rest) - known == later;
    } else {
      assert ({k0} + rest) - known == {k0} + later;
      assert k0 !in later;
    }
  }

  /** How many lookups of a run miss, starting from the stored keys `known`;
      each miss is one application of the computation. */
  function Misses<K>(known: set<K>, keys: seq<K>): nat
    decreases |keys|
  {
    if keys == [] then 0
    else (if keys[0] in known then 0 else 1) + Misses(known + {keys[0]}, keys[1..])
  }

  /** Memoization is invisible to callers: a run of lookups on a consistent
      store returns exactly what the computation gives for each key, leaves
      the store consistent and holding every key asked for, and keeps every
      entry it already had. */
  lemma {:induction false} LookupAllTransparent<K, V>(m: map<K, V>, compute: K -> V, keys: seq<K>)
    requires Consistent(m, compute)
    ensures forall i :: 0 <= i < |keys| ==> LookupAll(m, compute, keys).0[i] == compute(keys[i])
    ensures Consistent(LookupAll(m, compute, keys).1, compute)
    ensures LookupAll(m, compute, keys).1.Keys == m.Keys + Elements(keys)
    ensures forall k :: k in m ==> k in LookupAll(m, compute, keys).1 && LookupAll(m, compute, keys).1[k] == m[k]
    decreases |keys|
  {
    if keys != [] {
      var (v, m1) := Lookup(m, compute, keys[0]);
      LookupAllTransparent(m1, compute, keys[1..]);
      var r := LookupAll(m, compute, keys);
      var rest := LookupAll(m1, compute, keys[1..]);
      assert r.0 == [v] + rest.0;
      forall i | 0 <= i < |keys| ensures r.0[i] == compute(keys[i]) {
        if i > 0 {
          assert r.0[i] == rest.0[i - 1];
          assert keys[1..][i - 1] == keys[i];
        }
      }
      ElementsCons(keys);
    }
  }

  /** Each distinct key is computed at most once: the misses of a run are
      exactly its keys that were not stored when it began. */
  lemma {:induction false} MissesCountNewKeys<K>(known: set<K>, keys: seq<K>)
    ensures Misses(known, keys) == |Elements(keys) - known|
    decreases |keys|
  {
    if keys == [] {
      assert Elements(keys) == {};
    } else {
      var k0 := keys[0];
      var rest := keys[1..];
      MissesCountNewKeys(known + {k0}, rest);
      ElementsCons(keys);
      NewKeysCons(known, k0, Elements(rest));
    }
  }

  /** A run of lookups stores one new entry per miss: the store grows by
      `Misses`, which is the number of distinct keys of the run that were not
      stored before it. */
  lemma {:induction false} LookupAllMisses<K, V>(m: map<K, V>, compute: K -> V, keys: seq<K>)
    ensures |LookupAll(m, compute, keys).1| == |m| + Misses(m.Keys, keys)
    ensures |LookupAll(m, compute, keys).1| == |m| + |Elements(keys) - m.Keys|
    decreases |keys|
  {
    if keys != [] {
      var (v, m1) := Lookup(m, compute, keys[0]);
      LookupAllMisses(m1, compute, keys[1..]);
      assert m1.Keys == m.Keys + {keys[0]};
      if keys[0] !in m {
        assert m1 == m[keys[0] := v];
        assert |m1| == |m| + 1;
      }
    }
    MissesCountNewKeys(m.Keys, keys);
  }

  /** A run extended by one more lookup: the new state and the new miss
      count are those of one `Lookup` after the run. So a store reached by
      `MemoCache.Get` calls on `keys` holds `LookupAll(m, compute, keys).1`
      and has computed `Misses(m.Keys, keys)` times since state `m`. */
  lemma {:induction false} LookupAllSnoc<K, V>(m: map<K, V>, compute: K -> V, keys: seq<K>, key: K)
    ensures LookupAll(m, compute, keys + [key]).1 == Lookup(LookupAll(m, compute, keys).1, compute, key).1
    ensures Misses(m.Keys, keys + [key]) ==
      Misses(m.Keys, keys) + (if key in LookupAll(m, compute, keys).1 then 0 else 1)
    decreases |keys|
  {
    if keys == [] {
      assert keys + [key] == [key];
      assert ([key])[1..] == [];
    } else {
      var (v, m1) := Lookup(m, compute, keys[0]);
      assert (keys + [key])[0] == keys[0];
      assert (keys + [key])[1..] == keys[1..] + [key];
      LookupAllSnoc(m1, compute, keys[1..], key);
      assert m1.Keys == m.Keys + {keys[0]};
    }
  }

  /** Looking up a key a second time hits: it returns the same value and
      leaves the store as the first lookup left it. */
  lemma SecondLookupHits<K, V>(m: map<K, V>, compute: K -> V, key: K)
    ensures Lookup(Lookup(m, compute, key).1, compute, key) == (Lookup(m, compute, key).0, Lookup(m, compute, key).1)
  {
  }

  /** A memoizing store: `entries` holds what has been computed so far;
      `computations` counts the applications of `compute`. */
  class MemoCache<K(==), V> {
    const compute: K -> V
    var entries: map<K, V>
    ghost var computations: nat

    /** Every entry is the computed value of its key, and the computation
        has run once per stored key: never twice for the same key. */
    ghost predicate Valid()
      reads this
    {
      && Consistent(entries, compute)
      && computations == |entries|
    }

    /** An empty store for the given computation. */
    constructor (compute: K -> V)
      ensures Valid()
      ensures this.compute == compute
      ensures entries == map[]
      ensures computations == 0
    {
      this.compute := compute;
      entries := map[];
      computations := 0;
    }

    /** `get(key)`: the stored value on a hit; on a miss the computed value,
        which is stored before it is returned. */
    method Get(key: K) returns (v: V)
      requires Valid()
      modifies this
      ensures Valid()
      ensures v == compute(key)
      ensures (v, entries) == Lookup(old(entries), compute, key)
      ensures computations == old(computations) + (if key in old(entries) then 0 else 1)
    {
      if key in entries {
        v := entries[key];
      } else {
        v := compute(key);
        entries := entries[key := v];
        computations := computations + 1;
      }
    }
  }
}
