/**
 * RedisDaoImpl: the namespaced key/value and list facade. The Redis connection is the
 * pair of fields `store` (plain values) and `lists` (list values); each primitive the
 * code sends over the connection (SETNX, EXPIRE, SET, DEL, GET, LPUSH, ...) is a direct
 * update of those fields, and each operation is proved to leave the store described by
 * the matching function of Keyspace or Lists.
 */
module Dao {
  import opened Wrappers
  import opened Naming
  import opened Codecs
  import opened Keyspace
  import opened Lists

  class RedisDaoImpl {
    /** The template's string serializer; in the model it encodes and decodes String list values only (keys stay strings). */
    const strings: StringCodec
    /** SerializeUtil, used for every stored object. */
    const objects: ObjectCodec
    /** The plain values of the backing store, by store key. */
    var store: Store
    /** The lists of the backing store, by list key. */
    var lists: ListStore

    ghost predicate Valid()
      reads this
    {
      NoEmptyLists(lists)
    }

    /** The injected template, over whatever the backing store already holds. */
    constructor (strings: StringCodec, objects: ObjectCodec, store: Store, lists: ListStore)
      requires NoEmptyLists(lists)
      ensures Valid()
      ensures this.strings == strings && this.objects == objects
      ensures this.store == store && this.lists == lists
    {
      this.strings := strings;
      this.objects := objects;
      this.store := store;
      this.lists := lists;
    }

    // The backing-store commands the operations send.

    /** SETNX: write `v` under `sk` only when `sk` is absent; true when it wrote. */
    method SetNx(sk: string, v: Bytes) returns (written: bool)
      modifies this`store
      ensures written == (sk !in old(store))
      ensures store == if written then old(store)[sk := Entry(v, None)] else old(store)
    {
      written := sk !in store;
      if written {
        store := store[sk := Entry(v, None)];
      }
    }

    /** EXPIRE: set the TTL of an existing key; a missing key stays missing. */
    method Expire(sk: string, seconds: int)
      modifies this`store
      ensures store == if sk in old(store) then old(store)[sk := old(store)[sk].(ttl := Some(seconds))] else old(store)
    {
      if sk in store {
        store := store[sk := store[sk].(ttl := Some(seconds))];
      }
    }

    /** SET, with the TTL given or with none (a plain SET drops an old TTL). */
    method Set(sk: string, v: Bytes, ttl: Option<int>)
      modifies this`store
      ensures store == old(store)[sk := Entry(v, ttl)]
    {
      store := store[sk := Entry(v, ttl)];
    }

    /** DEL: remove a key, if present. */
    method Del(sk: string)
      modifies this`store
      ensures store == old(store) - {sk}
    {
      store := store - {sk};
    }

    // Lists.

    /** lPushObj: prepend the value, encoded by the codec its runtime type selects; returns the new length. */
    method LPushObj(listKey: string, listValue: Value) returns (n: int)
      requires Valid()
      modifies this`lists
      ensures Valid()
      ensures lists == LPush(old(lists), listKey, EncodeForPush(strings, objects, listValue))
      ensures n == |ListAt(old(lists), listKey)| + 1
    {
      var value := EncodeForPush(strings, objects, listValue);
      lists := LPush(lists, listKey, value);
      n := |ListAt(lists, listKey)|;
    }

    /** rPushObj: append the value, encoded by the codec its runtime type selects; returns the new length. */
    method RPushObj(listKey: string, listValue: Value) returns (n: int)
      requires Valid()
      modifies this`lists
      ensures Valid()
      ensures lists == RPush(old(lists), listKey, EncodeForPush(strings, objects, listValue))
      ensures n == |ListAt(old(lists), listKey)| + 1
    {
      var value := EncodeForPush(strings, objects, listValue);
      lists := RPush(lists, listKey, value);
      n := |ListAt(lists, listKey)|;
    }

    /** resultLPop: pop the first element and decode it with the codec the caller names. */
    method ResultLPop(listKey: string, asString: bool) returns (r: Option<Value>)
      requires Valid()
      modifies this`lists
      ensures Valid()
      ensures lists == LPop(old(lists), listKey).0
      ensures r == DecodePopped(strings, objects, asString, LPop(old(lists), listKey).1)
    {
      var popped := LPop(lists, listKey);
      lists := popped.0;
      r := DecodePopped(strings, objects, asString, popped.1);
    }

    /** resultRPop: pop the last element and decode it with the codec the caller names. */
    method ResultRPop(listKey: string, asString: bool) returns (r: Option<Value>)
      requires Valid()
      modifies this`lists
      ensures Valid()
      ensures lists == RPop(old(lists), listKey).0
      ensures r == DecodePopped(strings, objects, asString, RPop(old(lists), listKey).1)
    {
      var popped := RPop(lists, listKey);
      lists := popped.0;
      r := DecodePopped(strings, objects, asString, popped.1);
    }

    /** lPopObj: always decodes with SerializeUtil. */
    method LPopObj(listKey: string) returns (r: Option<Value>)
      requires Valid()
      modifies this`lists
      ensures Valid()
      ensures lists == LPop(old(lists), listKey).0
      ensures r == DecodePopped(strings, objects, false, LPop(old(lists), listKey).1)
    {
      r := ResultLPop(listKey, false);
    }

    /** rPopObj: always decodes with SerializeUtil. */
    method RPopObj(listKey: string) returns (r: Option<Value>)
      requires Valid()
      modifies this`lists
      ensures Valid()
      ensures lists == RPop(old(lists), listKey).0
      ensures r == DecodePopped(strings, objects, false, RPop(old(lists), listKey).1)
    {
      r := ResultRPop(listKey, false);
    }

    /** lPushString: lPushObj of a String, so the string codec encodes it. */
    method LPushString(listKey: string, listValue: string) returns (n: int)
      requires Valid()
      modifies this`lists
      ensures Valid()
      ensures lists == LPush(old(lists), listKey, strings.encode(listValue))
      ensures n == |ListAt(old(lists), listKey)| + 1
    {
      n := LPushObj(listKey, Str(listValue));
    }

    /** rPushString: rPushObj of a String, so the string codec encodes it. */
    method RPushString(listKey: string, listValue: string) returns (n: int)
      requires Valid()
      modifies this`lists
      ensures Valid()
      ensures lists == RPush(old(lists), listKey, strings.encode(listValue))
      ensures n == |ListAt(old(lists), listKey)| + 1
    {
      n := RPushObj(listKey, Str(listValue));
    }

    /** lPopString: pop the first element and decode it with the string codec; null on an empty list. */
    method LPopString(listKey: string) returns (r: Option<string>)
      requires Valid()
      modifies this`lists
      ensures Valid()
      ensures lists == LPop(old(lists), listKey).0
      ensures LPop(old(lists), listKey).1.None? ==> r.None?
      ensures LPop(old(lists), listKey).1.Some? ==> r == Some(strings.decode(LPop(old(lists), listKey).1.value))
    {
      var v := ResultLPop(listKey, true);
      r := if v.None? then None else Some(v.value.s);
    }

    /** rPopString: pop the last element and decode it with the string codec; null on an empty list. */
    method RPopString(listKey: string) returns (r: Option<string>)
      requires Valid()
      modifies this`lists
      ensures Valid()
      ensures lists == RPop(old(lists), listKey).0
      ensures RPop(old(lists), listKey).1.None? ==> r.None?
      ensures RPop(old(lists), listKey).1.Some? ==> r == Some(strings.decode(RPop(old(lists), listKey).1.value))
    {
      var v := ResultRPop(listKey, true);
      r := if v.None? then None else Some(v.value.s);
    }

    // Key/value operations.

    /** add: SETNX of the namespaced key, then EXPIRE when a TTL is given; true when the key was created. */
    method Add(key: Option<string>, obj: Value, t: string, ttl: Option<int>) returns (created: bool)
      modifies this`store
      ensures created == (GetKey(t, key) !in old(store))
      ensures store == AddOne(old(store), key, obj, t, ttl, objects)
    {
      var sk := GetKey(t, key);
      var value := objects.serialize(obj);
      created := SetNxExpire(sk, value, ttl);
    }

    /** The write both add operations perform for one key: SETNX, then EXPIRE when a TTL is given. */
    method SetNxExpire(sk: string, v: Bytes, ttl: Option<int>) returns (written: bool)
      modifies this`store
      ensures written == (sk !in old(store))
      ensures store == old(store)[sk := AddedEntry(old(store), sk, v, ttl)]
    {
      written := SetNx(sk, v);
      if ttl.Some? {
        Expire(sk, ttl.value);
      }
    }

    /**
     * Batch add: false on a null or empty map; otherwise SETNX (and EXPIRE) for every
     * non-null key, and true however many keys were created.
     */
    method AddAll(m: Option<Batch>, t: string, ttl: Option<int>) returns (ok: bool)
      modifies this`store
      ensures ok == (m.Some? && m.value != map[])
      ensures ok ==> store == BatchAdd(old(store), m.value, t, ttl, objects)
      ensures !ok ==> store == old(store)
    {
      if m.None? || m.value == map[] {
        return false;
      }
      var batch := m.value;
      var rest := batch.Keys;
      ghost var done: set<Option<string>> := {};
      assert AddWrites(store, batch, done, t, ttl, objects) == map[];
      while rest != {}
        invariant done + rest == batch.Keys && done !! rest
        invariant store == old(store) + AddWrites(old(store), batch, done, t, ttl, objects)
        decreases rest
      {
        var key :| key in rest;
        if key.Some? {
          var sk := GetKey(t, key);
          var value := objects.serialize(batch[key]);
          var written := SetNxExpire(sk, value, ttl);
          AddWritesStep(old(store), batch, done, key, t, ttl, objects);
        } else {
          AddWritesSkipNull(old(store), batch, done, t, ttl, objects);
        }
        rest := rest - {key};
        done := done + {key};
      }
      return true;
    }

    /** Single delete: the list delete of a one-element list, so it always returns true. */
    method Delete(key: Option<string>, t: string) returns (ok: bool)
      modifies this`store
      ensures ok
      ensures store == BatchDelete(old(store), [key], t)
    {
      ok := DeleteAll(Some([key]), t);
    }

    /**
     * List delete: false on a null or empty list; otherwise DEL of every listed key's
     * namespaced key (a null key names "…:null"), and true whether or not any existed.
     */
    method DeleteAll(keys: Option<seq<Option<string>>>, t: string) returns (ok: bool)
      modifies this`store
      ensures ok == (keys.Some? && keys.value != [])
      ensures ok ==> store == BatchDelete(old(store), keys.value, t)
      ensures !ok ==> store == old(store)
    {
      if keys.None? || keys.value == [] {
        return false;
      }
      var ks := keys.value;
      assert DeletedKeys(ks[..0], t) == {};
      for i := 0 to |ks|
        invariant store == BatchDelete(old(store), ks[..i], t)
      {
        Del(GetKey(t, ks[i]));
        assert DeletedKeys(ks[..i + 1], t) == DeletedKeys(ks[..i], t) + {GetKey(t, ks[i])} by {
          assert ks[..i + 1] == ks[..i] + [ks[i]];
        }
      }
      assert ks[..|ks|] == ks;
      return true;
    }

    /** Single update: the batch update of a one-entry map, which is never empty, so true. */
    method Update(key: Option<string>, obj: Value, t: string, ttl: Option<int>) returns (ok: bool)
      modifies this`store
      ensures ok
      ensures store == BatchUpdate(old(store), map[key := obj], t, ttl, objects)
    {
      var one := map[key := obj];
      assert key in one;
      var r := UpdateAll(Some(one), t, ttl);
      ok := r.value;
    }

    /**
     * Batch update: on a null or empty map the callback returns null, which the cast to
     * boolean unboxes into a NullPointerException; otherwise SET (with the TTL or none)
     * for every non-null key, and true.
     */
    method UpdateAll(m: Option<Batch>, t: string, ttl: Option<int>) returns (r: Outcome<bool>)
      modifies this`store
      ensures r == if m.Some? && m.value != map[] then Return(true) else Throw(NullPointerException)
      ensures r.Return? ==> store == BatchUpdate(old(store), m.value, t, ttl, objects)
      ensures r.Throw? ==> store == old(store)
    {
      if m.None? || m.value == map[] {
        return Throw(NullPointerException);
      }
      var batch := m.value;
      var rest := batch.Keys;
      ghost var done: set<Option<string>> := {};
      assert UpdateWrites(batch, done, t, ttl, objects) == map[];
      while rest != {}
        invariant done + rest == batch.Keys && done !! rest
        invariant store == old(store) + UpdateWrites(batch, done, t, ttl, objects)
        decreases rest
      {
        var key :| key in rest;
        UpdateWritesStep(batch, done, key, t, ttl, objects);
        if key.Some? {
          var sk := GetKey(t, key);
          var value := objects.serialize(batch[key]);
          Set(sk, value, ttl);
          UnionThenUpdate(old(store), UpdateWrites(batch, done, t, ttl, objects), sk, Entry(value, ttl));
        }
        rest := rest - {key};
        done := done + {key};
      }
      return Return(true);
    }

    /** get: the decoded value of the namespaced key, or null when it is absent. */
    method Get(key: Option<string>, t: string) returns (r: Option<Value>)
      ensures r == Lookup(store, key, t, objects)
    {
      var sk := GetKey(t, key);
      if sk !in store {
        return None;
      }
      r := Some(objects.deserialize(store[sk].value));
    }

    /**
     * getTableData: scan the keys matching the table's pattern; null when there are none,
     * otherwise each key's suffix mapped to the value get returns for it.
     */
    method GetTableData(t: string) returns (r: Option<map<string, Value>>)
      requires GlobFree(t)
      ensures r == TableData(store, t, objects)
    {
      var keys := set sk | sk in store && MatchesPattern(t, sk);
      if keys == {} {
        return None;
      }
      StripInjectiveOnTable(t);
      var data: map<string, Value> := map[];
      assert SuffixMap(store, t, {}, objects) == map[];
      var rest := keys;
      while rest != {}
        invariant rest <= keys
        invariant data == SuffixMap(store, t, keys - rest, objects)
        decreases rest
      {
        var bytes :| bytes in rest;
        var key := StripKey(t, bytes);
        MatchedKeyIsTableKey(t, bytes);
        var obj := Get(Some(key), t);
        SuffixMapStep(store, t, keys - rest, bytes, objects);
        data := data[key := obj.value];
        assert keys - (rest - {bytes}) == (keys - rest) + {bytes};
        rest := rest - {bytes};
      }
      assert keys - rest == keys == TableKeys(store, t);
      return Some(data);
    }
  }
}
