/** The ordered associative arrays of the source language: entries keep
    the position of their first insertion, assigning an existing key
    replaces its value in place, and `a + b` keeps `a`'s value on a clash. */
module OrderedMaps {
  import opened Wrappers

  type OMap<K, V> = seq<(K, V)>

  function Keys<K, V>(m: OMap<K, V>): (r: seq<K>)
    ensures |r| == |m|
    ensures forall i :: 0 <= i < |m| ==> r[i] == m[i].0
  {
    if |m| == 0 then [] else [m[0].0] + Keys(m[1..])
  }

  function Values<K, V>(m: OMap<K, V>): (r: seq<V>)
    ensures |r| == |m|
    ensures forall i :: 0 <= i < |m| ==> r[i] == m[i].1
  {
    if |m| == 0 then [] else [m[0].1] + Values(m[1..])
  }

  /** The value stored under `k` (the first entry, should there be several). */
  function Get<K(==), V>(m: OMap<K, V>, k: K): (r: Option<V>)
    ensures r.None? <==> k !in Keys(m)
  {
    if |m| == 0 then None
    else if m[0].0 == k then Some(m[0].1)
    else Get(m[1..], k)
  }

  predicate UniqueKeys<K(==), V>(m: OMap<K, V>)
  {
    forall i, j :: 0 <= i < j < |m| ==> m[i].0 != m[j].0
  }

  /** `m[k] = v`. */
  function Put<K(==,!new), V>(m: OMap<K, V>, k: K, v: V): (r: OMap<K, V>)
    ensures Get(r, k) == Some(v)
    ensures forall k' :: k' != k ==> Get(r, k') == Get(m, k')
    ensures forall x :: x in Keys(r) <==> x in Keys(m) || x == k
    ensures |r| == if k in Keys(m) then |m| else |m| + 1
  {
    PutHits(m, k, v);
    PutMisses(m, k, v);
    PutKeys(m, k, v);
    Assign(m, k, v)
  }

  /** The keys after `m[k] = v`: unchanged when `k` was there, else `k`
      appended. */
  lemma PutKeysOrder<K(!new), V>(m: OMap<K, V>, k: K, v: V)
    ensures Keys(Put(m, k, v)) == if k in Keys(m) then Keys(m) else Keys(m) + [k]
  {
    PutKeys(m, k, v);
  }

  /** The assignment itself: replace the first entry under `k`, or append. */
  function Assign<K(==), V>(m: OMap<K, V>, k: K, v: V): OMap<K, V>
  {
    if |m| == 0 then [(k, v)]
    else if m[0].0 == k then [(k, v)] + m[1..]
    else [m[0]] + Assign(m[1..], k, v)
  }

  lemma {:induction false} PutHits<K, V>(m: OMap<K, V>, k: K, v: V)
    ensures Get(Assign(m, k, v), k) == Some(v)
  {
    if |m| > 0 && m[0].0 != k {
      PutHits(m[1..], k, v);
      ConsFacts(m[0], Assign(m[1..], k, v));
    } else if |m| > 0 {
      ConsFacts((k, v), m[1..]);
    }
  }

  lemma {:induction false} PutMisses<K, V>(m: OMap<K, V>, k: K, v: V)
    ensures forall k' :: k' != k ==> Get(Assign(m, k, v), k') == Get(m, k')
  {
    if |m| > 0 {
      ConsFacts(m[0], m[1..]);
      assert [m[0]] + m[1..] == m;
      if m[0].0 != k {
        PutMisses(m[1..], k, v);
        ConsFacts(m[0], Assign(m[1..], k, v));
      } else {
        ConsFacts((k, v), m[1..]);
      }
    }
  }

  lemma {:induction false} PutKeys<K, V>(m: OMap<K, V>, k: K, v: V)
    ensures Keys(Assign(m, k, v)) == if k in Keys(m) then Keys(m) else Keys(m) + [k]
  {
    if |m| > 0 {
      ConsFacts(m[0], m[1..]);
      assert [m[0]] + m[1..] == m;
      if m[0].0 != k {
        PutKeys(m[1..], k, v);
        ConsFacts(m[0], Assign(m[1..], k, v));
        assert k in Keys(m) <==> k in Keys(m[1..]);
      } else {
        ConsFacts((k, v), m[1..]);
      }
    }
  }

  /** How Keys and Get read a map that starts with entry `e`. */
  lemma ConsFacts<K, V>(e: (K, V), t: OMap<K, V>)
    ensures ([e] + t)[1..] == t
    ensures Keys([e] + t) == [e.0] + Keys(t)
    ensures forall k :: Get([e] + t, k) == if e.0 == k then Some(e.1) else Get(t, k)
  {
    assert ([e] + t)[1..] == t;
  }

  /** `m` with every entry under `k` removed (unset). */
  function Remove<K(==,!new), V>(m: OMap<K, V>, k: K): (r: OMap<K, V>)
    ensures Get(r, k).None?
    ensures forall k' :: k' != k ==> Get(r, k') == Get(m, k')
    ensures forall i :: 0 <= i < |r| ==> r[i] in m
  {
    if |m| == 0 then []
    else if m[0].0 == k then Remove(m[1..], k)
    else
      var rest := Remove(m[1..], k);
      assert ([m[0]] + rest)[1..] == rest;
      [m[0]] + rest
  }

  /** The array union `a + b`: `a` followed by the entries of `b` whose key
      `a` lacks. */
  function Union<K(==), V>(a: OMap<K, V>, b: OMap<K, V>): OMap<K, V>
    decreases |b|
  {
    if |b| == 0 then a
    else if b[0].0 in Keys(a) then Union(a, b[1..])
    else Union(a + [b[0]], b[1..])
  }

  /** array_intersect_key against a set of keys: order kept. */
  function Restrict<K(==,!new), V>(m: OMap<K, V>, ks: set<K>): (r: OMap<K, V>)
    ensures forall k :: Get(r, k) == if k in ks then Get(m, k) else None
  {
    if |m| == 0 then []
    else if m[0].0 in ks then
      var rest := Restrict(m[1..], ks);
      assert ([m[0]] + rest)[1..] == rest;
      [m[0]] + rest
    else Restrict(m[1..], ks)
  }

  /** Assigning every pair of `kvs` in turn, as a loop of `m[k] = v`. */
  function PutAll<K(==,!new), V>(m: OMap<K, V>, kvs: OMap<K, V>): OMap<K, V>
    decreases |kvs|
  {
    if |kvs| == 0 then m else PutAll(Put(m, kvs[0].0, kvs[0].1), kvs[1..])
  }

  /* ---------------------------------------------------------------------
     Lemmas
     --------------------------------------------------------------------- */

  lemma GetAppend<K, V>(a: OMap<K, V>, e: (K, V), k: K)
    ensures Get(a + [e], k) == if k in Keys(a) then Get(a, k) else if e.0 == k then Some(e.1) else None
  {
    if |a| > 0 {
      assert (a + [e])[1..] == a[1..] + [e];
      GetAppend(a[1..], e, k);
    } else {
      assert (a + [e])[1..] == [];
    }
  }

  /** On a clash the left operand wins. */
  lemma {:induction false} UnionGet<K, V>(a: OMap<K, V>, b: OMap<K, V>, k: K)
    ensures Get(Union(a, b), k) == if k in Keys(a) then Get(a, k) else Get(b, k)
    decreases |b|
  {
    if |b| > 0 {
      if b[0].0 in Keys(a) {
        UnionGet(a, b[1..], k);
      } else {
        UnionGet(a + [b[0]], b[1..], k);
        GetAppend(a, b[0], k);
        assert Keys(a + [b[0]]) == Keys(a) + [b[0].0];
      }
    }
  }

  /** The union starts with the left operand, in its order. */
  lemma {:induction false} UnionKeepsLeft<K, V>(a: OMap<K, V>, b: OMap<K, V>)
    ensures a <= Union(a, b)
    decreases |b|
  {
    if |b| > 0 {
      if b[0].0 in Keys(a) {
        UnionKeepsLeft(a, b[1..]);
      } else {
        UnionKeepsLeft(a + [b[0]], b[1..]);
      }
    }
  }

  lemma {:induction false} UnionUnique<K, V>(a: OMap<K, V>, b: OMap<K, V>)
    requires UniqueKeys(a)
    ensures UniqueKeys(Union(a, b))
    decreases |b|
  {
    if |b| > 0 {
      if b[0].0 in Keys(a) {
        UnionUnique(a, b[1..]);
      } else {
        var a' := a + [b[0]];
        assert UniqueKeys(a') by {
          forall i, j | 0 <= i < j < |a'| ensures a'[i].0 != a'[j].0 {
            if j == |a| {
              assert a[i].0 == Keys(a)[i];
            }
          }
        }
        UnionUnique(a', b[1..]);
      }
    }
  }

  /** Assigning distinct keys: each assigned key holds its new value and
      every other key keeps its old one. */
  lemma {:induction false} PutAllGet<K(!new), V>(m: OMap<K, V>, kvs: OMap<K, V>, k: K)
    requires UniqueKeys(kvs)
    ensures Get(PutAll(m, kvs), k) == if k in Keys(kvs) then Get(kvs, k) else Get(m, k)
    decreases |kvs|
  {
    if |kvs| > 0 {
      var rest := kvs[1..];
      assert UniqueKeys(rest) by {
        forall i, j | 0 <= i < j < |rest| ensures rest[i].0 != rest[j].0 {
          assert rest[i] == kvs[i + 1] && rest[j] == kvs[j + 1];
        }
      }
      assert kvs[0].0 !in Keys(rest) by {
        forall i | 0 <= i < |rest| ensures rest[i].0 != kvs[0].0 {
          assert rest[i] == kvs[i + 1];
        }
      }
      PutAllGet(Put(m, kvs[0].0, kvs[0].1), rest, k);
    }
  }

  /** Assignments keep the existing keys in place: new keys only append. */
  lemma {:induction false} PutAllKeepsKeys<K(!new), V>(m: OMap<K, V>, kvs: OMap<K, V>)
    ensures Keys(m) <= Keys(PutAll(m, kvs))
    decreases |kvs|
  {
    if |kvs| > 0 {
      PutKeysOrder(m, kvs[0].0, kvs[0].1);
      PutAllKeepsKeys(Put(m, kvs[0].0, kvs[0].1), kvs[1..]);
    }
  }

  /** After a loop of assignments the keys are the old ones and the
      assigned ones. */
  lemma {:induction false} PutAllKeys<K(!new), V>(m: OMap<K, V>, kvs: OMap<K, V>, k: K)
    ensures k in Keys(PutAll(m, kvs)) <==> k in Keys(m) || k in Keys(kvs)
    decreases |kvs|
  {
    if |kvs| > 0 {
      var m1 := Put(m, kvs[0].0, kvs[0].1);
      assert PutAll(m, kvs) == PutAll(m1, kvs[1..]);
      PutAllKeys(m1, kvs[1..], k);
      assert Keys(kvs) == [kvs[0].0] + Keys(kvs[1..]);
    } else {
      assert PutAll(m, kvs) == m;
    }
  }

  /** A loop of assignments keeps the keys unique. */
  lemma {:induction false} PutAllUnique<K(!new), V>(m: OMap<K, V>, kvs: OMap<K, V>)
    requires UniqueKeys(m)
    ensures UniqueKeys(PutAll(m, kvs))
    decreases |kvs|
  {
    if |kvs| > 0 {
      var m1 := Put(m, kvs[0].0, kvs[0].1);
      assert PutAll(m, kvs) == PutAll(m1, kvs[1..]);
      PutKeepsUnique(m, kvs[0].0, kvs[0].1);
      PutAllUnique(m1, kvs[1..]);
    } else {
      assert PutAll(m, kvs) == m;
    }
  }

  /** Assigning keeps the keys unique. */
  lemma {:induction false} PutKeepsUnique<K(!new), V>(m: OMap<K, V>, k: K, v: V)
    requires UniqueKeys(m)
    ensures UniqueKeys(Put(m, k, v))
  {
    var r := Put(m, k, v);
    PutKeysOrder(m, k, v);
    forall i, j | 0 <= i < j < |r| ensures r[i].0 != r[j].0 {
      assert Keys(r)[i] == r[i].0 && Keys(r)[j] == r[j].0;
      assert Keys(m) <= Keys(r);
      if j < |m| {
        assert Keys(m)[i] == m[i].0 && Keys(m)[j] == m[j].0;
      } else {
        assert Keys(m)[i] == m[i].0;
        assert r[i].0 in Keys(m);
      }
    }
  }

  /** The entries after the first of a map with unique keys: unique keys,
      none of them the first key. */
  lemma UniqueTail<K, V>(m: OMap<K, V>)
    requires UniqueKeys(m) && |m| > 0
    ensures UniqueKeys(m[1..]) && m[0].0 !in Keys(m[1..])
  {
    var t := m[1..];
    forall a, b | 0 <= a < b < |t| ensures t[a].0 != t[b].0 {
      assert t[a] == m[a + 1] && t[b] == m[b + 1];
    }
    forall a | 0 <= a < |t| ensures Keys(t)[a] != m[0].0 {
      assert Keys(t)[a] == m[a + 1].0;
    }
  }

  /** With unique keys every entry is what its key looks up. */
  lemma {:induction false} GetAt<K, V>(m: OMap<K, V>, i: nat)
    requires UniqueKeys(m) && i < |m|
    ensures Get(m, m[i].0) == Some(m[i].1)
    decreases i
  {
    if i > 0 {
      var rest := m[1..];
      UniqueTail(m);
      assert m[i] == rest[i - 1];
      GetAt(rest, i - 1);
    }
  }

  /** array_intersect_key keeps the keys unique. */
  lemma {:induction false} RestrictKeepsUnique<K(!new), V>(m: OMap<K, V>, ks: set<K>)
    requires UniqueKeys(m)
    ensures UniqueKeys(Restrict(m, ks))
    decreases |m|
  {
    if |m| > 0 {
      var tail := m[1..];
      UniqueTail(m);
      RestrictKeepsUnique(tail, ks);
      if m[0].0 in ks {
        var rest := Restrict(tail, ks);
        assert Get(rest, m[0].0).None?;
        ConsUnique(m[0], rest);
      }
    }
  }

  /** An entry whose key is new in front of a map with unique keys. */
  lemma ConsUnique<K, V>(e: (K, V), t: OMap<K, V>)
    requires UniqueKeys(t) && e.0 !in Keys(t)
    ensures UniqueKeys([e] + t)
  {
    var r := [e] + t;
    forall a, b | 0 <= a < b < |r| ensures r[a].0 != r[b].0 {
      assert r[b] == t[b - 1];
      if a == 0 {
        assert Keys(t)[b - 1] == t[b - 1].0;
      } else {
        assert r[a] == t[a - 1];
      }
    }
  }
}
