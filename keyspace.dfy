/**
 * What each key/value operation of the data-access object does to the backing store,
 * stated as functions on a map from store key to entry. The methods of RedisDaoImpl
 * are proved to produce exactly these stores.
 */
module Keyspace {
  import opened Wrappers
  import opened Naming
  import opened Codecs

  /** A stored value: its encoded bytes and the TTL in seconds, if one was set. */
  datatype Entry = Entry(value: Bytes, ttl: Option<int>)

  type Store = map<string, Entry>

  /** A batch of key/value pairs as a Java Map<String, Object>: a key may be null. */
  type Batch = map<Option<string>, Value>

  /**
   * The entry of store key `sk` after SETNX of `v`, followed by EXPIRE when a TTL is given:
   * an existing value is kept, and the TTL replaces the old one whether or not SETNX wrote.
   */
  function AddedEntry(s: Store, sk: string, v: Bytes, ttl: Option<int>): (e: Entry)
    ensures e.value == (if sk in s then s[sk].value else v)
    ensures ttl.Some? ==> e.ttl == ttl
    ensures ttl.None? ==> e.ttl == (if sk in s then s[sk].ttl else None)
  {
    var e := if sk in s then s[sk] else Entry(v, None);
    if ttl.Some? then e.(ttl := ttl) else e
  }

  /** The single add: set-if-absent of the namespaced key, then the optional TTL. */
  function AddOne(s: Store, key: Option<string>, obj: Value, t: string, ttl: Option<int>, oc: ObjectCodec): (r: Store)
    ensures r.Keys == s.Keys + {GetKey(t, key)}
    ensures r[GetKey(t, key)] == AddedEntry(s, GetKey(t, key), oc.serialize(obj), ttl)
    ensures forall sk :: sk in s && sk != GetKey(t, key) ==> r[sk] == s[sk]
  {
    var sk := GetKey(t, key);
    s[sk := AddedEntry(s, sk, oc.serialize(obj), ttl)]
  }

  /** The entries a batch add writes for the keys in `done`; null keys are skipped. */
  function AddWrites(s: Store, m: Batch, done: set<Option<string>>, t: string, ttl: Option<int>, oc: ObjectCodec)
    : (w: map<string, Entry>)
    requires done <= m.Keys
    ensures w.Keys == set key | key in done && key.Some? :: GetKey(t, key)
  {
    GetKeyInjectiveAll(t);
    map key | key in done && key.Some? :: GetKey(t, key) := AddedEntry(s, GetKey(t, key), oc.serialize(m[key]), ttl)
  }

  /** A non-empty batch add: every non-null key of the batch gets the single-add treatment. */
  function BatchAdd(s: Store, m: Batch, t: string, ttl: Option<int>, oc: ObjectCodec): (r: Store)
    ensures r.Keys == s.Keys + set key | key in m && key.Some? :: GetKey(t, key)
    ensures forall key :: key in m && key.Some? ==>
              r[GetKey(t, key)] == AddedEntry(s, GetKey(t, key), oc.serialize(m[key]), ttl)
  {
    GetKeyInjectiveAll(t);
    s + AddWrites(s, m, m.Keys, t, ttl, oc)
  }

  /** The entries a batch update writes for the keys in `done`: an unconditional SET. */
  function UpdateWrites(m: Batch, done: set<Option<string>>, t: string, ttl: Option<int>, oc: ObjectCodec)
    : (w: map<string, Entry>)
    requires done <= m.Keys
    ensures w.Keys == set key | key in done && key.Some? :: GetKey(t, key)
  {
    GetKeyInjectiveAll(t);
    map key | key in done && key.Some? :: GetKey(t, key) := Entry(oc.serialize(m[key]), ttl)
  }

  /** A non-empty batch update. */
  function BatchUpdate(s: Store, m: Batch, t: string, ttl: Option<int>, oc: ObjectCodec): (r: Store)
    ensures r.Keys == s.Keys + set key | key in m && key.Some? :: GetKey(t, key)
    ensures forall key :: key in m && key.Some? ==> r[GetKey(t, key)] == Entry(oc.serialize(m[key]), ttl)
  {
    GetKeyInjectiveAll(t);
    s + UpdateWrites(m, m.Keys, t, ttl, oc)
  }

  /** The store keys a delete of `keys` in table `t` names; a null key names "…:null". */
  function DeletedKeys(keys: seq<Option<string>>, t: string): (r: set<string>)
    ensures forall i :: 0 <= i < |keys| ==> GetKey(t, keys[i]) in r
    ensures forall sk :: sk in r ==> exists i :: 0 <= i < |keys| && sk == GetKey(t, keys[i])
  {
    set key | key in keys :: GetKey(t, key)
  }

  /** A non-empty batch delete. */
  function BatchDelete(s: Store, keys: seq<Option<string>>, t: string): (r: Store)
    ensures forall i :: 0 <= i < |keys| ==> GetKey(t, keys[i]) !in r
    ensures forall sk :: sk in r ==> sk in s && r[sk] == s[sk]
  {
    s - DeletedKeys(keys, t)
  }

  /** get: the decoded value of the namespaced key, or null when the key is absent. */
  function Lookup(s: Store, key: Option<string>, t: string, oc: ObjectCodec): (r: Option<Value>)
    ensures r.None? <==> GetKey(t, key) !in s
    ensures r.Some? ==> r.value == oc.deserialize(s[GetKey(t, key)].value)
  {
    var sk := GetKey(t, key);
    if sk in s then Some(oc.deserialize(s[sk].value)) else None
  }

  /** The store keys the scan of table `t` returns: exactly the stored keys of that table. */
  function TableKeys(s: Store, t: string): (r: set<string>)
    requires GlobFree(t)
    ensures forall sk :: sk in r <==> sk in s && StemLength(t) <= |sk| && sk == GetKey(t, Some(sk[StemLength(t)..]))
  {
    set sk | sk in s && MatchesPattern(t, sk)
  }

  /** The scanned keys in `keys`, each under its suffix, mapped to its decoded value. */
  function SuffixMap(s: Store, t: string, keys: set<string>, oc: ObjectCodec): (r: map<string, Value>)
    requires forall sk :: sk in keys ==> sk in s && MatchesPattern(t, sk)
    ensures forall sk :: sk in keys ==>
              MatchesPattern(t, sk) && StripKey(t, sk) in r && r[StripKey(t, sk)] == oc.deserialize(s[sk].value)
    ensures forall k :: k in r ==> GetKey(t, Some(k)) in keys
  {
    StripInjectiveOnTable(t);
    map sk | sk in keys :: StripKey(t, sk) := oc.deserialize(s[sk].value)
  }

  /**
   * getTableData: null when the scan finds nothing, otherwise each scanned key's suffix
   * mapped to its decoded value.
   */
  function TableData(s: Store, t: string, oc: ObjectCodec): (r: Option<map<string, Value>>)
    requires GlobFree(t)
    ensures r.None? <==> TableKeys(s, t) == {}
  {
    var keys := TableKeys(s, t);
    if keys == {} then None else Some(SuffixMap(s, t, keys, oc))
  }

  /** One more scanned key adds its suffix and value to the map built so far. */
  lemma SuffixMapStep(s: Store, t: string, keys: set<string>, sk: string, oc: ObjectCodec)
    requires forall k :: k in keys ==> k in s && MatchesPattern(t, k)
    requires sk in s && MatchesPattern(t, sk) && sk !in keys
    ensures SuffixMap(s, t, keys + {sk}, oc) == SuffixMap(s, t, keys, oc)[StripKey(t, sk) := oc.deserialize(s[sk].value)]
  {
    var a := SuffixMap(s, t, keys + {sk}, oc);
    var prev := SuffixMap(s, t, keys, oc);
    var b := prev[StripKey(t, sk) := oc.deserialize(s[sk].value)];
    forall k | k in a
      ensures k in b && a[k] == b[k]
    {
      var g := GetKey(t, Some(k));
      StripGetKey(t, Some(k));
      if g != sk {
        MatchedKeyIsTableKey(t, sk);
        assert StripKey(t, g) == k && a[StripKey(t, g)] == prev[StripKey(t, g)];
      }
    }
    forall k | k in b
      ensures k in a
    {
      if k != StripKey(t, sk) {
        StripGetKey(t, Some(k));
        assert StripKey(t, GetKey(t, Some(k))) == k;
      }
    }
    assert a.Keys == b.Keys;
  }

  /** Overriding s by w and then setting k is overriding s by w with k set. */
  lemma UnionThenUpdate<K, V>(s: map<K, V>, w: map<K, V>, k: K, e: V)
    ensures s + w[k := e] == (s + w)[k := e]
  {
  }

  // ---------------------------------------------------------------------------------
  // Properties of the operations.

  /**
   * The single add writes only when the namespaced key is absent, keeps an existing
   * value, applies a given TTL either way, and touches no other key.
   */
  lemma AddOneSemantics(s: Store, key: Option<string>, obj: Value, t: string, ttl: Option<int>, oc: ObjectCodec)
    ensures var r := AddOne(s, key, obj, t, ttl, oc); var sk := GetKey(t, key);
      && sk in r
      && r[sk].value == (if sk in s then s[sk].value else oc.serialize(obj))
      && (ttl.Some? ==> r[sk].ttl == ttl)
      && (ttl.None? && sk in s ==> r[sk] == s[sk])
      && (forall o :: o != sk ==> (o in r <==> o in s) && (o in s ==> r[o] == s[o]))
  {
  }

  /** With a non-null key the single add is the batch add of a one-entry map. */
  lemma AddOneIsBatchOfOne(s: Store, k: string, obj: Value, t: string, ttl: Option<int>, oc: ObjectCodec)
    ensures AddOne(s, Some(k), obj, t, ttl, oc) == BatchAdd(s, map[Some(k) := obj], t, ttl, oc)
  {
    var m := map[Some(k) := obj];
    var w := AddWrites(s, m, m.Keys, t, ttl, oc);
    assert w.Keys == {GetKey(t, Some(k))};
  }

  /** A second add of a key that is already present leaves its value unchanged (get still gives the first). */
  lemma AddDoesNotOverwrite(s: Store, key: Option<string>, obj: Value, t: string, ttl: Option<int>, oc: ObjectCodec)
    requires GetKey(t, key) in s
    ensures Lookup(AddOne(s, key, obj, t, ttl, oc), key, t, oc) == Lookup(s, key, t, oc)
  {
  }

  /**
   * add, then add again with another value: the first add creates the key, the second
   * finds it present (so returns false), and get still gives the first value.
   */
  lemma AddTwiceKeepsFirst(s: Store, key: Option<string>, v1: Value, v2: Value, t: string, oc: ObjectCodec)
    requires ObjectRoundTrip(oc)
    requires GetKey(t, key) !in s
    ensures GetKey(t, key) in AddOne(s, key, v1, t, None, oc)
    ensures Lookup(AddOne(AddOne(s, key, v1, t, None, oc), key, v2, t, None, oc), key, t, oc) == Some(v1)
  {
    GetAfterFreshAdd(s, key, v1, t, None, oc);
    AddDoesNotOverwrite(AddOne(s, key, v1, t, None, oc), key, v2, t, None, oc);
  }

  /** get after an add that created the key returns the added value. */
  lemma GetAfterFreshAdd(s: Store, key: Option<string>, obj: Value, t: string, ttl: Option<int>, oc: ObjectCodec)
    requires ObjectRoundTrip(oc)
    requires GetKey(t, key) !in s
    ensures Lookup(AddOne(s, key, obj, t, ttl, oc), key, t, oc) == Some(obj)
  {
  }

  /**
   * What a batch add does to one store key: the entry of a non-null batch key is the
   * single-add entry, and every other store key is untouched.
   */
  lemma BatchAddAt(s: Store, m: Batch, t: string, ttl: Option<int>, oc: ObjectCodec, sk: string)
    ensures var r := BatchAdd(s, m, t, ttl, oc);
      && (forall k :: Some(k) in m && sk == GetKey(t, Some(k)) ==>
            sk in r && r[sk] == AddedEntry(s, sk, oc.serialize(m[Some(k)]), ttl))
      && ((forall k :: Some(k) in m ==> sk != GetKey(t, Some(k))) ==>
            (sk in r <==> sk in s) && (sk in s ==> r[sk] == s[sk]))
  {
    var w := AddWrites(s, m, m.Keys, t, ttl, oc);
    forall k | Some(k) in m && sk == GetKey(t, Some(k))
      ensures sk in w && w[sk] == AddedEntry(s, sk, oc.serialize(m[Some(k)]), ttl)
    {
      assert sk in w;
    }
    if forall k :: Some(k) in m ==> sk != GetKey(t, Some(k)) {
      assert sk !in w;
    }
  }

  /**
   * One more key of a batch add, applied to the store the batch has produced so far,
   * gives the store with that key done too. Since distinct keys of one table are
   * distinct store keys, the order in which the batch is walked does not matter.
   */
  lemma AddWritesStep(s: Store, m: Batch, done: set<Option<string>>, key: Option<string>, t: string,
                      ttl: Option<int>, oc: ObjectCodec)
    requires done <= m.Keys && key in m && key !in done && key.Some?
    ensures var cur := s + AddWrites(s, m, done, t, ttl, oc);
            var sk := GetKey(t, key);
            s + AddWrites(s, m, done + {key}, t, ttl, oc) == cur[sk := AddedEntry(cur, sk, oc.serialize(m[key]), ttl)]
  {
    var w := AddWrites(s, m, done, t, ttl, oc);
    var w' := AddWrites(s, m, done + {key}, t, ttl, oc);
    var sk := GetKey(t, key);
    forall key' | key' in done && key'.Some?
      ensures GetKey(t, key') != sk
    {
      GetKeyDistinct(t, key', key);
    }
    assert sk !in w;
    var e := AddedEntry(s, sk, oc.serialize(m[key]), ttl);
    assert AddedEntry(s + w, sk, oc.serialize(m[key]), ttl) == e;
    assert w'.Keys == w.Keys + {sk};
    assert w' == w[sk := e];
    UnionThenUpdate(s, w, sk, e);
  }

  /** A null key of a batch add is skipped. */
  lemma AddWritesSkipNull(s: Store, m: Batch, done: set<Option<string>>, t: string, ttl: Option<int>, oc: ObjectCodec)
    requires done <= m.Keys && None in m
    ensures AddWrites(s, m, done + {None}, t, ttl, oc) == AddWrites(s, m, done, t, ttl, oc)
  {
    var w := AddWrites(s, m, done, t, ttl, oc);
    var w' := AddWrites(s, m, done + {None}, t, ttl, oc);
    assert w'.Keys == w.Keys;
  }

  /** One more key of a batch update, applied after the keys in `done`. */
  lemma UpdateWritesStep(m: Batch, done: set<Option<string>>, key: Option<string>, t: string,
                         ttl: Option<int>, oc: ObjectCodec)
    requires done <= m.Keys && key in m && key !in done
    ensures var w := UpdateWrites(m, done, t, ttl, oc);
            var w' := UpdateWrites(m, done + {key}, t, ttl, oc);
            && (key.None? ==> w' == w)
            && (key.Some? ==> w' == w[GetKey(t, key) := Entry(oc.serialize(m[key]), ttl)])
  {
    var w := UpdateWrites(m, done, t, ttl, oc);
    var w' := UpdateWrites(m, done + {key}, t, ttl, oc);
    if key.Some? {
      assert w' == w[GetKey(t, key) := Entry(oc.serialize(m[key]), ttl)];
    }
  }

  /**
   * A batch update sets every non-null key of the batch to its new value, with the given
   * TTL or none, and leaves every other store key alone.
   */
  lemma BatchUpdateAt(s: Store, m: Batch, t: string, ttl: Option<int>, oc: ObjectCodec, sk: string)
    ensures var r := BatchUpdate(s, m, t, ttl, oc);
      && (forall k :: Some(k) in m && sk == GetKey(t, Some(k)) ==>
            sk in r && r[sk] == Entry(oc.serialize(m[Some(k)]), ttl))
      && ((forall k :: Some(k) in m ==> sk != GetKey(t, Some(k))) ==>
            (sk in r <==> sk in s) && (sk in s ==> r[sk] == s[sk]))
  {
    var w := UpdateWrites(m, m.Keys, t, ttl, oc);
    forall k | Some(k) in m && sk == GetKey(t, Some(k))
      ensures sk in w
    {
    }
    if forall k :: Some(k) in m ==> sk != GetKey(t, Some(k)) {
      assert sk !in w;
    }
  }

  /** get after update of a non-null key returns the new value, whether or not the key existed. */
  lemma GetAfterUpdate(s: Store, k: string, obj: Value, t: string, ttl: Option<int>, oc: ObjectCodec)
    requires ObjectRoundTrip(oc)
    ensures Lookup(BatchUpdate(s, map[Some(k) := obj], t, ttl, oc), Some(k), t, oc) == Some(obj)
  {
    BatchUpdateAt(s, map[Some(k) := obj], t, ttl, oc, GetKey(t, Some(k)));
  }

  /** update of a null key writes nothing: the one-entry map's only key is skipped. */
  lemma UpdateNullKeyIsNoOp(s: Store, obj: Value, t: string, ttl: Option<int>, oc: ObjectCodec)
    ensures BatchUpdate(s, map[None := obj], t, ttl, oc) == s
  {
    var m: Batch := map[None := obj];
    assert m.Keys == {None};
    assert UpdateWrites(m, m.Keys, t, ttl, oc) == map[];
    assert s + map[] == s;
  }

  /** A delete removes exactly the named store keys and changes no other entry. */
  lemma BatchDeleteSemantics(s: Store, keys: seq<Option<string>>, t: string, sk: string)
    ensures var r := BatchDelete(s, keys, t);
      && (sk in r <==> sk in s && forall i :: 0 <= i < |keys| ==> sk != GetKey(t, keys[i]))
      && (sk in r ==> r[sk] == s[sk])
  {
    if exists i :: 0 <= i < |keys| && sk == GetKey(t, keys[i]) {
      var i :| 0 <= i < |keys| && sk == GetKey(t, keys[i]);
      assert sk in DeletedKeys(keys, t);
    }
  }

  /** get after delete of the same key returns null. */
  lemma GetAfterDelete(s: Store, key: Option<string>, t: string, oc: ObjectCodec)
    ensures Lookup(BatchDelete(s, [key], t), key, t, oc) == None
  {
    assert GetKey(t, key) in DeletedKeys([key], t);
  }

  /**
   * For a non-empty scan, the result's keys are exactly the keys k whose store key
   * GetKey(t, k) is present, each mapped to its decoded value.
   */
  lemma TableDataExact(s: Store, t: string, oc: ObjectCodec, k: string)
    requires GlobFree(t)
    requires TableData(s, t, oc).Some?
    ensures var data := TableData(s, t, oc).value;
      && (k in data <==> GetKey(t, Some(k)) in s)
      && (k in data ==> data[k] == oc.deserialize(s[GetKey(t, Some(k))].value))
  {
    var keys := TableKeys(s, t);
    var data := TableData(s, t, oc).value;
    StripInjectiveOnTable(t);
    var sk := GetKey(t, Some(k));
    StripGetKey(t, Some(k));
    if sk in s {
      assert sk in keys;
    }
    if k in data {
      var sk' :| sk' in keys && StripKey(t, sk') == k;
      MatchedKeyIsTableKey(t, sk');
    }
  }

  /** The scan is empty exactly when no key of the table is stored. */
  lemma TableDataNone(s: Store, t: string, oc: ObjectCodec)
    requires GlobFree(t)
    ensures TableData(s, t, oc).None? <==> forall k :: GetKey(t, Some(k)) !in s
  {
    if sk :| sk in TableKeys(s, t) {
      MatchedKeyIsTableKey(t, sk);
    }
    forall k | GetKey(t, Some(k)) in s
      ensures GetKey(t, Some(k)) in TableKeys(s, t)
    {
      StripGetKey(t, Some(k));
    }
  }

  /** getTableData(t) also returns the entries of table t + ":" + u, under the suffix u + ":" + k. */
  lemma TableDataIncludesSubtable(s: Store, t: string, u: string, k: string, oc: ObjectCodec)
    requires GlobFree(t)
    requires GetKey(t + ":" + u, Some(k)) in s
    ensures TableData(s, t, oc).Some?
    ensures u + ":" + k in TableData(s, t, oc).value
  {
    CrossTableCollision(t, u, k);
    TableDataNone(s, t, oc);
    TableDataExact(s, t, oc, u + ":" + k);
  }
}
