# RedisDaoImpl, modelled in Dafny

`RedisDaoImpl` is a data-access object that layers a "table" namespace over a flat
Redis key space. It offers set-if-absent adds, upserting updates and deletes, each in a
single-key and a batch form, and a single-key get. It also offers a table scan (`getTableData`) and list
push/pop operations. A value key `k` of table `t` is stored under
`"tableName=>" + t + ":" + k`. A table is scanned with the glob pattern
`"tableName=>" + t + ":*"`, and the scan recovers each key by dropping the first
`getPattern(t).length() - 1` characters.

The model abstracts the Redis connection as two fields of the class
`Dao.RedisDaoImpl`:

- `store`, a map from store key to `Entry` (the encoded value and an optional TTL);
- `lists`, a map from list key to a non-empty sequence of encoded elements.

Each command the code sends becomes a read or a direct update of these fields (SETNX,
EXPIRE, SET, DEL, GET, KEYS, LPUSH, RPUSH, LPOP, RPOP). Each operation is proved to produce the state
given by a pure function in `Keyspace` or `Lists`, and the lemmas about those functions
state what the operations promise.

Modules:

- `Wrappers`: `Option` for Java `null`, and `Outcome` for a return or a thrown exception.
- `Naming`: `getKey`, `getPattern` and the suffix strip.
- `Codecs`: the string codec and SerializeUtil, each a pair of functions. Their round
  trips are hypotheses of the lemmas that need them.
- `Keyspace`: the store-level meaning of add, batch add, delete, update, get and
  getTableData.
- `Lists`: the list commands.
- `Dao`: the class itself, whose batch operations are loops with invariants.

Java `null` keys are `Option<string>`. A single-key operation concatenates a null key
into `"…:null"`, so `add`, `get` and `delete` of a null key act on the key `"null"`
(`Naming.NullKeyCollision`). The batch add and batch update loops skip null keys, so
`update(null, v, t, e)` writes nothing and returns true (`Keyspace.UpdateNullKeyIsNoOp`).
The list delete does not skip null keys. A null table name behaves as the table name
`"null"`, so table names are plain strings.

Where the interface comments and the code disagree, the model follows the code:

- The batch add returns true however many keys already existed, although the interface
  comment says it returns false when a key exists (RedisDao.java:90).
- The batch update returns `null` from its callback on a null or empty map. The cast to
  `boolean` then throws, so `UpdateAll` ends in `Throw(NullPointerException)`.
- A table scan is not confined to its own table. If a table name contains `:`, for
  example table `a:b`, the scan of table `a` also returns that table's entries
  (`Keyspace.TableDataIncludesSubtable`).

## Model

| member | source | states |
|---|---|---|
| `Naming.KeyText` | RedisDaoImpl.java:245 | a non-null key is its own text, and Java's concatenation renders a null key as "null" |
| `Naming.GetPattern` | RedisDaoImpl.java:233-235 | the pattern is the table's key stem followed by one `*`, so its length minus one is the stem length |
| `Naming.GetKey` | RedisDaoImpl.java:244-246 | the store key starts with the literal part of the table's pattern, and dropping `len(pattern) - 1` characters leaves exactly the key (null renders as "null") |
| `Naming.StripKey` | RedisDaoImpl.java:219 | the suffix has the stem's length removed, and the pattern stem plus the suffix rebuilds the key exactly when the key starts with the stem |
| `Naming.MatchesPattern` | RedisDaoImpl.java:211-212 | the prefix test that the KEYS glob match amounts to for a table name without glob metacharacters: a key matches exactly when it is at least a stem long and equals `getKey(t, suffix)` of its own suffix |
| `Naming.StripGetKey` | RedisDaoImpl.java:219 | every key of table t matches t's pattern, and stripping it gives back the key text |
| `Naming.MatchedKeyIsTableKey` | RedisDaoImpl.java:211-219 | every key the scan of t finds is `getKey(t, suffix)` of its own stripped suffix |
| `Naming.GetKeyInjective` | RedisDaoImpl.java:244-246 | for a fixed table, equal store keys mean equal key texts, and equal keys when both are non-null |
| `Naming.GetKeyDistinct` | RedisDaoImpl.java:244-246 | distinct non-null keys of one table have distinct store keys |
| `Naming.GetKeyInjectiveAll` | RedisDaoImpl.java:244-246 | injectivity of the store key for non-null keys, for all key pairs at once |
| `Naming.NullKeyCollision` | RedisDaoImpl.java:244-246 | a null key and the key "null" name the same store key |
| `Naming.StripInjectiveOnTable` | RedisDaoImpl.java:217-221 | two scanned keys of one table with the same suffix are the same key |
| `Naming.CrossTableCollision` | RedisDaoImpl.java:244-246 | key `u:k` of table t equals key `k` of table `t:u`, which t's scan finds with suffix `u:k` |
| `Naming.CrossTableExample` | RedisDaoImpl.java:244-246 | `getKey("a","b:c") == getKey("a:b","c")` |
| `Codecs.EncodeForPush` | RedisDaoImpl.java:27-32 | a String is encoded with the string codec, anything else with SerializeUtil |
| `Codecs.DecodePopped` | RedisDaoImpl.java:46-50 | the String variants decode with the string codec and always yield a string, so a non-String object pushed and popped by them never comes back as itself; a null pop stays null |
| `Codecs.MatchingCodecsRoundTrip` | RedisDaoImpl.java:23-52 | given both codecs round-trip, lPushString/lPopString and lPushObj(non-String)/lPopObj return the pushed value |
| `Codecs.StringPushedObjectPopped` | RedisDaoImpl.java:37-52 | lPushObj of a String then lPopObj yields SerializeUtil's decoding of string-codec bytes |
| `Codecs.MixedCodecsCanDisagree` | RedisDaoImpl.java:23-52 | there are round-tripping codecs for which lPushObj("A") then lPopObj does not give "A" |
| `Keyspace.AddedEntry` | RedisDaoImpl.java:112-115 | after SETNX and the optional EXPIRE, an existing value is kept, a missing one is written, and a given TTL is applied whether or not SETNX wrote |
| `Keyspace.AddOne` | RedisDaoImpl.java:107-118 | the single add adds the namespaced key to the store's keys, gives it the SETNX-then-EXPIRE entry, and keeps every other entry |
| `Keyspace.AddWrites` | RedisDaoImpl.java:127-136 | the batch add writes exactly the store keys of the batch's non-null keys |
| `Keyspace.BatchAdd` | RedisDaoImpl.java:121-139 | a non-empty batch add adds exactly the store keys of the batch's non-null keys, each with the SETNX-then-EXPIRE entry of its own value |
| `Keyspace.UpdateWrites` | RedisDaoImpl.java:177-188 | the batch update writes exactly the store keys of the batch's non-null keys |
| `Keyspace.BatchUpdate` | RedisDaoImpl.java:171-191 | a non-empty batch update adds exactly the store keys of the batch's non-null keys, each set to its own new value with the given TTL or none |
| `Keyspace.DeletedKeys` | RedisDaoImpl.java:155-158 | the store keys a delete names are exactly `getKey(t, k)` of the listed keys, a null key included |
| `Keyspace.BatchDelete` | RedisDaoImpl.java:149-161 | a non-empty delete leaves none of the listed namespaced keys, and every surviving entry is unchanged |
| `Keyspace.Lookup` | RedisDaoImpl.java:194-205 | get is null exactly when the namespaced key is absent, otherwise it is the decoded stored value |
| `Keyspace.TableKeys` | RedisDaoImpl.java:211-212 | the KEYS scan of a table without glob metacharacters returns exactly the stored keys that are `getKey(t, suffix)` of their own suffix |
| `Keyspace.SuffixMap` | RedisDaoImpl.java:216-222 | each scanned key's suffix maps to that key's decoded value, and every suffix in the map is a key whose store key was scanned |
| `Keyspace.TableData` | RedisDaoImpl.java:207-225 | getTableData is null exactly when the scan finds no key |
| `Keyspace.SuffixMapStep` | RedisDaoImpl.java:216-222 | putting one more scanned key's suffix and value into the map gives the map of the larger key set |
| `Keyspace.AddOneSemantics` | RedisDaoImpl.java:107-118 | single add writes only when the key is absent, keeps an existing value, applies a given TTL either way, and touches no other key |
| `Keyspace.AddOneIsBatchOfOne` | RedisDaoImpl.java:121-139 | for a non-null key, the single add equals the batch add of a one-entry map |
| `Keyspace.AddDoesNotOverwrite` | RedisDaoImpl.java:112 | adding a present key leaves what get returns unchanged |
| `Keyspace.AddTwiceKeepsFirst` | RedisDaoImpl.java:107-118 | add of an absent key creates it, a second add finds it present, and get returns the first value |
| `Keyspace.GetAfterFreshAdd` | RedisDaoImpl.java:194-205 | get after an add that created the key returns the added value |
| `Keyspace.BatchAddAt` | RedisDaoImpl.java:127-136 | each non-null batch key gets the single-add entry, and every other store key is untouched |
| `Keyspace.AddWritesStep` | RedisDaoImpl.java:127-136 | one more non-null key of the batch, applied to the store produced so far, gives the store with that key done, whatever the iteration order |
| `Keyspace.AddWritesSkipNull` | RedisDaoImpl.java:128 | a null batch key is skipped |
| `Keyspace.UpdateWritesStep` | RedisDaoImpl.java:177-188 | one more batch key adds its unconditional SET, and a null key adds nothing |
| `Keyspace.BatchUpdateAt` | RedisDaoImpl.java:177-188 | each non-null batch key is overwritten with the new value and the given TTL or none, and every other store key is untouched |
| `Keyspace.GetAfterUpdate` | RedisDaoImpl.java:163-168 | get after update of a non-null key returns the new value, whether or not the key existed |
| `Keyspace.UpdateNullKeyIsNoOp` | RedisDaoImpl.java:164-168 | update with a null key leaves the store unchanged |
| `Keyspace.BatchDeleteSemantics` | RedisDaoImpl.java:155-158 | a store key survives a delete exactly when no listed key names it, and surviving entries are unchanged |
| `Keyspace.GetAfterDelete` | RedisDaoImpl.java:141-146 | get after delete of the same key returns null |
| `Keyspace.TableDataExact` | RedisDaoImpl.java:216-222 | a non-null scan result holds key k exactly when `getKey(t, k)` is stored, mapped to its decoded value |
| `Keyspace.TableDataNone` | RedisDaoImpl.java:212-215 | the scan result is null exactly when no key of the table is stored |
| `Keyspace.TableDataIncludesSubtable` | RedisDaoImpl.java:211-212 | an entry of table `t:u` appears in getTableData(t) under the suffix `u:k` |
| `Lists.LPush` | RedisDaoImpl.java:33 | LPUSH prepends to the named list and leaves other lists alone |
| `Lists.RPush` | RedisDaoImpl.java:65 | RPUSH appends to the named list and leaves other lists alone |
| `Lists.LPop` | RedisDaoImpl.java:47-49 | LPOP returns and removes the head, and is null and changes nothing on an empty list |
| `Lists.RPop` | RedisDaoImpl.java:79-81 | RPOP returns and removes the last element, and is null and changes nothing on an empty list |
| `Lists.Replace` | RedisDaoImpl.java:47-49 | the list under the key becomes the remainder, the key disappears when the last element is popped, and other lists are unchanged |
| `Lists.LPopAfterLPush` | RedisDaoImpl.java:23-52 | LPOP undoes LPUSH: the pushed element comes back and the lists are as before |
| `Lists.RPopAfterRPush` | RedisDaoImpl.java:55-84 | RPOP undoes RPUSH |
| `Lists.QueueOrder` | RedisDaoImpl.java:23-84 | LPUSH a, LPUSH b, RPOP gives a, then LPOP gives b, and the list is gone |
| `Dao.RedisDaoImpl.constructor` | RedisDaoImpl.java:19-20 | the injected template: both codecs and the backing store's current contents |
| `Dao.RedisDaoImpl.SetNx` | RedisDaoImpl.java:112 | SETNX writes the value with no TTL only when the key is absent, and reports whether it wrote |
| `Dao.RedisDaoImpl.Expire` | RedisDaoImpl.java:114 | EXPIRE sets the TTL of an existing key and leaves a missing key missing |
| `Dao.RedisDaoImpl.Set` | RedisDaoImpl.java:182-185 | SET overwrites the key's entry with the value and the given TTL, or with no TTL |
| `Dao.RedisDaoImpl.Del` | RedisDaoImpl.java:157 | DEL removes the key if present and changes nothing else |
| `Dao.RedisDaoImpl.LPushObj` | RedisDaoImpl.java:23-35 | prepends the value encoded by its runtime type's codec and returns the new length |
| `Dao.RedisDaoImpl.RPushObj` | RedisDaoImpl.java:55-67 | appends the value encoded by its runtime type's codec and returns the new length |
| `Dao.RedisDaoImpl.ResultLPop` | RedisDaoImpl.java:42-52 | pops the head and decodes it with the codec the caller names |
| `Dao.RedisDaoImpl.ResultRPop` | RedisDaoImpl.java:74-84 | pops the last element and decodes it with the codec the caller names |
| `Dao.RedisDaoImpl.LPopObj` | RedisDaoImpl.java:38-40 | pops the head and always decodes with SerializeUtil |
| `Dao.RedisDaoImpl.RPopObj` | RedisDaoImpl.java:70-72 | pops the last element and always decodes with SerializeUtil |
| `Dao.RedisDaoImpl.LPushString` | RedisDaoImpl.java:87-89 | prepends the string-codec bytes of the string and returns the new length |
| `Dao.RedisDaoImpl.RPushString` | RedisDaoImpl.java:97-99 | appends the string-codec bytes of the string and returns the new length |
| `Dao.RedisDaoImpl.LPopString` | RedisDaoImpl.java:92-94 | pops the head and decodes it with the string codec, null on an empty list |
| `Dao.RedisDaoImpl.RPopString` | RedisDaoImpl.java:102-104 | pops the last element and decodes it with the string codec, null on an empty list |
| `Dao.RedisDaoImpl.SetNxExpire` | RedisDaoImpl.java:112-115 | SETNX then the optional EXPIRE leaves the entry given by AddedEntry, and reports whether the key was absent |
| `Dao.RedisDaoImpl.Add` | RedisDaoImpl.java:107-118 | returns true exactly when the namespaced key was absent, and the store becomes the single-add store |
| `Dao.RedisDaoImpl.AddAll` | RedisDaoImpl.java:121-139 | false and no change on a null or empty map, otherwise true and the batch-add store |
| `Dao.RedisDaoImpl.Delete` | RedisDaoImpl.java:142-146 | always true, and the namespaced key is removed |
| `Dao.RedisDaoImpl.DeleteAll` | RedisDaoImpl.java:149-161 | false and no change on a null or empty list, otherwise true and exactly the listed namespaced keys removed |
| `Dao.RedisDaoImpl.Update` | RedisDaoImpl.java:164-168 | always true, and the store becomes the batch update of the one-entry map |
| `Dao.RedisDaoImpl.UpdateAll` | RedisDaoImpl.java:171-191 | a NullPointerException and no change on a null or empty map, otherwise true and the batch-update store |
| `Dao.RedisDaoImpl.Get` | RedisDaoImpl.java:194-205 | returns the decoded value of the namespaced key, or null when it is absent |
| `Dao.RedisDaoImpl.GetTableData` | RedisDaoImpl.java:208-225 | null when the scan finds nothing, otherwise exactly the scanned keys' suffixes mapped to their decoded values |

## Left out

- Spring wiring, `redisTemplate.execute` callbacks and pipelining are connection plumbing, so each command is a direct update of the modelled store.
- Dao.RedisDaoImpl.GetTableData: requires a table name without the glob metacharacters `*`, `?`, `[` and `\`. Redis's KEYS glob matching is not modelled, and for such names the pattern is a plain prefix test. `Keyspace.TableKeys`, `Keyspace.TableData` and the lemmas about them carry the same requirement, so nothing is stated about a table name such as `a*`.
- The byte formats of the string serializer and SerializeUtil are foreign code. Each is an arbitrary pair of functions, and a round trip is a hypothesis wherever a lemma needs one. SerializeUtil is taken to decode a null pop as null. Its deserialize is taken to be total and never null on non-null bytes, so the model cannot show it throwing on, or returning null for, bytes it did not write (such as the string-serializer bytes that lPushObj stores for a String and lPopObj then decodes).
- Store keys and list keys are strings, not the string serializer's bytes. Key encoding is taken to be injective.
- Time is not modelled: a TTL is only a number recorded on the entry, and there is no clock, expiration or eviction.
- Redis's handling of a non-positive TTL is not modelled. EXPIRE with such a TTL deletes the key, and SET with it fails.
- Plain values and lists are two separate key spaces. Redis's WRONGTYPE errors are not modelled, and neither are list keys that a table scan could also match.
- Concurrency, the atomicity of set-if-absent across clients, and partial failure inside a pipelined batch are not modelled. The `get` inside `getTableData` always finds the key it was given.
- Null values (a null `obj` or `listValue`) and null list keys are not modelled. Both would be handed to foreign serializers.
- List lengths are unbounded integers, not Java `Long`.
