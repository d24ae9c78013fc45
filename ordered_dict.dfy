/**
 * The decoder's container: a Python `dict` (the default `wrapper`).
 * Entries are kept in insertion order, each key at most once, and
 * `d[k] = v` either overwrites the value of an existing key where it
 * stands or appends a new entry at the end.
 */
module OrderedDict {

  datatype Option<+T> = None | Some(value: T)

  /** A dictionary as the list of its (key, value) entries, in insertion order. */
  datatype Dict<K, V> = Dict(entries: seq<(K, V)>)

  function Empty<K, V>(): Dict<K, V>
  {
    Dict([])
  }

  /** The keys, in insertion order (what iterating over a Python dict yields). */
  function Keys<K, V>(d: Dict<K, V>): seq<K>
    decreases |d.entries|
  {
    if d.entries == [] then [] else [d.entries[0].0] + Keys(Dict(d.entries[1..]))
  }

  /** No key occurs twice: the invariant every Python dict keeps. */
  predicate UniqueKeys<K(==), V>(d: Dict<K, V>)
  {
    forall i, j :: 0 <= i < j < |d.entries| ==> d.entries[i].0 != d.entries[j].0
  }

  /** `d.get(k)`: the value stored under `k`, if any. */
  function Get<K(==), V>(d: Dict<K, V>, k: K): (r: Option<V>)
    decreases |d.entries|
    ensures r.Some? <==> k in Keys(d)
    ensures r.Some? ==> exists i :: 0 <= i < |d.entries| && d.entries[i] == (k, r.value)
  {
    if d.entries == [] then None
    else if d.entries[0].0 == k then Some(d.entries[0].1)
    else
      var r := Get(Dict(d.entries[1..]), k);
      assert r.Some? ==> exists i :: 0 < i < |d.entries| && d.entries[i] == (k, r.value) by {
        if r.Some? {
          var i :| 0 <= i < |d.entries| - 1 && d.entries[1..][i] == (k, r.value);
          assert d.entries[i + 1] == (k, r.value);
        }
      }
      r
  }

  /** `d[k] = v`: overwrite the entry of `k` in place, or append `(k, v)` when `k` is new. */
  function Put<K(==), V>(d: Dict<K, V>, k: K, v: V): (r: Dict<K, V>)
    decreases |d.entries|
  {
    if d.entries == [] then Dict([(k, v)])
    else if d.entries[0].0 == k then Dict([(k, v)] + d.entries[1..])
    else Dict([d.entries[0]] + Put(Dict(d.entries[1..]), k, v).entries)
  }

  /** `d[k] = v` keeps the key order, appending `k` when it is new. */
  lemma {:induction false} PutKeys<K, V>(d: Dict<K, V>, k: K, v: V)
    ensures Keys(Put(d, k, v)) == if k in Keys(d) then Keys(d) else Keys(d) + [k]
    decreases |d.entries|
  {
    if d.entries != [] && d.entries[0].0 != k {
      var tail := Dict(d.entries[1..]);
      PutKeys(tail, k, v);
      assert Dict(Put(d, k, v).entries[1..]) == Put(tail, k, v);
    }
  }

  lemma {:induction false} KeysLength<K, V>(d: Dict<K, V>)
    ensures |Keys(d)| == |d.entries|
    ensures forall i :: 0 <= i < |d.entries| ==> Keys(d)[i] == d.entries[i].0
    decreases |d.entries|
  {
    if d.entries != [] {
      KeysLength(Dict(d.entries[1..]));
    }
  }

  /** Last write wins: after `d[k] = v`, looking up `k` gives `v`. */
  lemma {:induction false} PutGet<K, V>(d: Dict<K, V>, k: K, v: V)
    ensures Get(Put(d, k, v), k) == Some(v)
    decreases |d.entries|
  {
    if d.entries != [] && d.entries[0].0 != k {
      PutGet(Dict(d.entries[1..]), k, v);
      assert Put(d, k, v).entries[1..] == Put(Dict(d.entries[1..]), k, v).entries;
    }
  }

  /** `d[k] = v` leaves every other key's value as it was. */
  lemma {:induction false} PutGetOther<K, V>(d: Dict<K, V>, k: K, v: V, k': K)
    requires k' != k
    ensures Get(Put(d, k, v), k') == Get(d, k')
    decreases |d.entries|
  {
    if d.entries != [] {
      var r := Put(d, k, v);
      if d.entries[0].0 == k {
        assert r.entries[1..] == d.entries[1..];
      } else if d.entries[0].0 != k' {
        PutGetOther(Dict(d.entries[1..]), k, v, k');
        assert r.entries[1..] == Put(Dict(d.entries[1..]), k, v).entries;
      }
    }
  }

  /** Two writes to one key leave the second value, where the first one put the key. */
  lemma {:induction false} PutPut<K, V>(d: Dict<K, V>, k: K, v1: V, v2: V)
    ensures Put(Put(d, k, v1), k, v2) == Put(d, k, v2)
    decreases |d.entries|
  {
    if d.entries != [] && d.entries[0].0 != k {
      var tail := Dict(d.entries[1..]);
      PutPut(tail, k, v1, v2);
      var once := Put(d, k, v1);
      assert once.entries[0] == d.entries[0];
      assert Dict(once.entries[1..]) == Put(tail, k, v1);
    }
  }

  /** A key that is not yet present is appended at the end. */
  lemma {:induction false} PutNewKey<K, V>(d: Dict<K, V>, k: K, v: V)
    requires k !in Keys(d)
    ensures Put(d, k, v) == Dict(d.entries + [(k, v)])
    decreases |d.entries|
  {
    if d.entries != [] {
      PutNewKey(Dict(d.entries[1..]), k, v);
      assert [d.entries[0]] + (d.entries[1..] + [(k, v)]) == d.entries + [(k, v)];
    }
  }

  /** A key that is present keeps its position; only its value changes. */
  lemma {:induction false} PutExistingKey<K, V>(d: Dict<K, V>, k: K, v: V, i: nat)
    requires UniqueKeys(d)
    requires i < |d.entries| && d.entries[i].0 == k
    ensures Put(d, k, v) == Dict(d.entries[i := (k, v)])
    decreases |d.entries|
  {
    if i > 0 {
      var tail := Dict(d.entries[1..]);
      assert d.entries[0].0 != k;
      assert tail.entries[i - 1].0 == k;
      assert UniqueKeys(tail) by {
        forall a, b | 0 <= a < b < |tail.entries| ensures tail.entries[a].0 != tail.entries[b].0 {
          assert tail.entries[a] == d.entries[a + 1] && tail.entries[b] == d.entries[b + 1];
        }
      }
      PutExistingKey(tail, k, v, i - 1);
      assert [d.entries[0]] + tail.entries[i - 1 := (k, v)] == d.entries[i := (k, v)];
    } else {
      assert [(k, v)] + d.entries[1..] == d.entries[0 := (k, v)];
    }
  }

  /** `d[k] = v` keeps every key unique. */
  lemma PutUniqueKeys<K, V>(d: Dict<K, V>, k: K, v: V)
    ensures UniqueKeys(d) ==> UniqueKeys(Put(d, k, v))
  {
    if UniqueKeys(d) {
      KeysLength(d);
      if k in Keys(d) {
        var i :| 0 <= i < |Keys(d)| && Keys(d)[i] == k;
        PutExistingKey(d, k, v, i);
        var e := d.entries[i := (k, v)];
        forall a, b | 0 <= a < b < |e| ensures e[a].0 != e[b].0 {
          assert e[a].0 == d.entries[a].0 && e[b].0 == d.entries[b].0;
        }
      } else {
        PutNewKey(d, k, v);
        var e := d.entries + [(k, v)];
        forall a, b | 0 <= a < b < |e| ensures e[a].0 != e[b].0 {
          if b == |d.entries| {
            assert Keys(d)[a] == d.entries[a].0;
          }
        }
      }
    }
  }

  /** Storing the pairs of `es` one after another into `d`, as a loop of `d[k] = v` does. */
  function PutAll<K(==), V>(d: Dict<K, V>, es: seq<(K, V)>): Dict<K, V>
    decreases |es|
  {
    if es == [] then d else PutAll(Put(d, es[0].0, es[0].1), es[1..])
  }

  /** The value of the last pair of `es` whose key is `k`. */
  function LastValue<K(==), V>(es: seq<(K, V)>, k: K): (r: Option<V>)
    decreases |es|
    ensures r.Some? <==> exists i :: 0 <= i < |es| && es[i].0 == k
  {
    if es == [] then None
    else if es[|es| - 1].0 == k then Some(es[|es| - 1].1)
    else
      var r := LastValue(es[..|es| - 1], k);
      assert (exists i :: 0 <= i < |es| && es[i].0 == k) ==> r.Some? by {
        if i :| 0 <= i < |es| && es[i].0 == k {
          assert es[..|es| - 1][i].0 == k;
        }
      }
      r
  }

  /** One more pair at the end is one more `d[k] = v` after the others. */
  lemma {:induction false} PutAllSnoc<K, V>(d: Dict<K, V>, es: seq<(K, V)>, e: (K, V))
    ensures PutAll(d, es + [e]) == Put(PutAll(d, es), e.0, e.1)
    decreases |es|
  {
    if es != [] {
      assert (es + [e])[1..] == es[1..] + [e];
      PutAllSnoc(Put(d, es[0].0, es[0].1), es[1..], e);
    }
  }

  /** Last write wins: after storing `es`, a key holds its last value in `es`, or its old value if `es` never names it. */
  lemma {:induction false} PutAllGet<K, V>(d: Dict<K, V>, es: seq<(K, V)>, k: K)
    ensures Get(PutAll(d, es), k) == if LastValue(es, k).Some? then LastValue(es, k) else Get(d, k)
    decreases |es|
  {
    if es != [] {
      var init, e := es[..|es| - 1], es[|es| - 1];
      assert es == init + [e];
      PutAllSnoc(d, init, e);
      PutAllGet(d, init, k);
      if e.0 == k {
        PutGet(PutAll(d, init), k, e.1);
      } else {
        PutGetOther(PutAll(d, init), e.0, e.1, k);
      }
    }
  }

  /** Storing pairs with fresh, distinct keys appends them in order. */
  lemma {:induction false} PutAllFresh<K, V>(d: Dict<K, V>, es: seq<(K, V)>)
    requires UniqueKeys(Dict(d.entries + es))
    ensures PutAll(d, es) == Dict(d.entries + es)
    decreases |es|
  {
    if es != [] {
      var all := d.entries + es;
      KeysLength(d);
      assert es[0].0 !in Keys(d) by {
        forall i | 0 <= i < |Keys(d)| ensures Keys(d)[i] != es[0].0 {
          assert all[i].0 == Keys(d)[i] && all[|d.entries|] == es[0];
        }
      }
      PutNewKey(d, es[0].0, es[0].1);
      assert (d.entries + [es[0]]) + es[1..] == all;
      PutAllFresh(Dict(d.entries + [es[0]]), es[1..]);
    }
  }

  /** Rebuilding a dict from its own entries gives it back. */
  lemma PutAllEntries<K, V>(d: Dict<K, V>)
    requires UniqueKeys(d)
    ensures PutAll(Empty(), d.entries) == d
  {
    assert Empty<K, V>().entries + d.entries == d.entries;
    PutAllFresh(Empty(), d.entries);
  }
}
