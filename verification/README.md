# farce-db core in Dafny

This project models the data-access core of farce-db, a small document store that keeps its records as files in a
GitHub repository. The model has three parts:

- **The bounded recency cache** (`src/core/cache.ts`). This is a JavaScript `Map` with a size cap.
  - `get` re-inserts a hit at the newest end.
  - `set` first drops the oldest key when the map is full, then stores the pair.
- **The cache-through record manager** (`src/core/recordManager.ts`).
  - `createRecord` and `getRecord` answer a truthy cached value without touching storage.
  - Otherwise they call the storage provider once and cache what it answers.
- **The record engine** (`src/orm/ORM.ts`). It covers:
  - the schema registry and type validation;
  - the hash input built from the hash fields;
  - the `|`-delimited text form of a record;
  - per-field value→hash indexes;
  - lookup through an index;
  - update by merge at a fixed address, and delete.

Files:

| file | module | contents |
|---|---|---|
| `wrappers.dfy` | `Wrappers` | `Option` and `Outcome` |
| `js.dfy` | `Js` | The JavaScript value semantics the core relies on: truthiness, `typeof`, `String(v)`, integer `toString()`, `Array.prototype.join`, and `String.prototype.split` on one character. Also the join/split round trips. |
| `cache.dfy` | `BoundedCache` | The `Map` as a sequence of entries in iteration order, and `class Cache` |
| `record_manager.dfy` | `RecordManagement` | An in-memory storage provider that logs its calls, and `class RecordManager` |
| `schema.dfy` | `Schemas` | `TableSchema` from `src/types/Schema.ts`, plus the optional `indexFields` that the engine reads |
| `codec.dfy` | `RecordCodec` | The pure parts of the engine: validation, hash input, encoding and decoding |
| `orm.dfy` | `RecordEngine` | `class Orm` over a store of record files and index files |

Modelling choices:

- A `Map` is the sequence of its entries with distinct keys, oldest first.
  - `Map.prototype.delete` and `Map.prototype.set` are the functions `Delete` and `Insert`.
  - The cache methods reassign the sequence field `entries`.
- The storage provider of the record manager is an interface in the source. It is modelled by `MemoryStorage`:
  - `createFile` stores the record and answers `folderId + "/" + fileName`;
  - `getFile` answers the stored file, or `None` when the promise would reject;
  - both append the call to `calls`, so the contracts can say which calls reach storage.
- The GitHub repository under the engine is two maps inside `class Orm`:
  - record files: path → text;
  - index files: path → the object that `JSON.parse` gives, mapping value strings to hashes.
- MD5 is the function `digest`, a constructor parameter. Nothing is assumed about it except, in `InsertThenFind`, that
  its answers are never empty (an MD5 hex digest has 32 characters).
- Every engine operation catches its own errors and logs them. In the model every failure comes before any write: a
  missing schema, a missing record file (on read, and in `updateRecordByHash`), a failed validation, a field that is
  not indexed, and a value with no truthy index entry (in `getRecordByField`). So a failing operation answers `None`
  or leaves the store unchanged. Provider failures are not modelled (see "## Left out").
- Asynchronous calls run one after the other.
  - The index updates of `insertRecord` run in `Promise.all`. Run one after another they give the same result: distinct
    fields write distinct files (`IndexPathInjective`), and a field listed twice writes the same key and value twice.
  - The index-file creation of `registerTableSchema` is fire-and-forget. It is modelled as a loop that writes the
    empty indexes in order.

Behaviours of the code worth noting:

- **Cache order.** The cache is not a textbook LRU.
  - `set` of an existing key keeps its position (`Insert`).
  - `set` on a full cache evicts the oldest key even when the key being set is already present
    (`SetAtCapacityEvictsOldest`). When that key sits elsewhere, it is overwritten in place and the cache shrinks by one.
    When it is the oldest key itself, it comes back at the newest end and the size is unchanged.
- **No cache on reads.** `getRecordByHash` does not consult any cache. The engine never uses the cache, which lives only
  in the record manager.
- **Registration wipes indexes.** `registerTableSchema` writes `{}` over an existing index file with
  `createOrUpdateFile`; it does not create the file only when it is missing. Registering a schema again therefore forgets
  every indexed record (`ReRegisterForgetsIndex`).
- **Decoded values are strings.** Decoding yields strings, so a record read back equals the inserted one only up to
  `String(v)` (`DecodeEncodeConforming`, `InsertThenFind`). For the same reason, an update that leaves out a number or
  boolean field always fails validation (`DecodedNeedsTypedUpdates`).
- **Errors are swallowed.** Errors are caught and logged inside each engine operation, not raised to the caller.

## Model

| member | source | states |
|---|---|---|
| `BoundedCache.IndexOf` | src/core/cache.ts:10 | `has(key)`: -1 exactly when no entry has the key; otherwise the first position holding it |
| `BoundedCache.Lookup` | src/core/cache.ts:11 | `get` on the map is `None` exactly when no entry has the key |
| `BoundedCache.Delete` | src/core/cache.ts:13 | `delete(key)`: keys stay distinct, the key is gone, every other key's value is unchanged, and the size drops by one exactly when the key was present |
| `BoundedCache.Insert` | src/core/cache.ts:29 | `set(key, value)` on the map: afterwards the key maps to value and every other key is unchanged; a new key is appended at the end; an existing key keeps its position |
| `BoundedCache.Cache.constructor` | src/core/cache.ts:5-7 | A new cache is empty and has the given capacity |
| `BoundedCache.Cache.Get` | src/core/cache.ts:9-18 | Returns the stored value (`None` for `null`); the new entries are the old ones with a hit moved to the newest end; distinct keys and the size bound are kept |
| `BoundedCache.Cache.Set` | src/core/cache.ts:20-30 | The new entries are: the oldest dropped when `size >= maxSize`, then the pair inserted; distinct keys and `size <= max(maxSize, 1)` are kept |
| `BoundedCache.DeleteOldest` | src/core/cache.ts:23-26 | Deleting the first key in iteration order removes exactly the first entry |
| `BoundedCache.AfterSetWithinCapacity` | src/core/cache.ts:21-29 | `set` never takes the cache beyond `max(maxSize, 1)` entries |
| `BoundedCache.GetMovesHitToNewest` | src/core/cache.ts:10-15 | `get` of a present key moves exactly that entry to the end; the other entries keep their order, and every key keeps its value |
| `BoundedCache.SetBelowCapacity` | src/core/cache.ts:20-29 | Below capacity nothing is evicted: a new key is appended, and an existing key is overwritten in place |
| `BoundedCache.SetAtCapacityEvictsOldest` | src/core/cache.ts:21-29 | At capacity the oldest entry is dropped first, whatever key is set. A new key, or the oldest key itself, ends up after the remaining entries, so the result is the old entries minus the first, plus the new pair. A key present elsewhere is overwritten in place among the remaining entries, so the cache shrinks by one; the oldest key is then gone |
| `BoundedCache.GetAfterSet` | src/core/cache.ts:9-30 | Right after `set(k, v)`, `get(k)` returns `v` |
| `BoundedCache.FillInOrder` | src/core/cache.ts:20-29 | While there is room, a run of `set` calls with distinct new keys appends them in order |
| `BoundedCache.OverflowEvictsFirstInserted` | src/core/cache.ts:21-29 | Setting `maxSize + 1` distinct keys into an empty cache leaves all but the first |
| `BoundedCache.GetProtectsFromEviction` | src/core/cache.ts:9-29 | A `get` of the oldest key of a full cache protects it: the next `set` evicts the second-oldest, and the touched key sits just before the new one |
| `RecordManagement.EffectiveCacheSize` | src/core/recordManager.ts:22 | The capacity is `cacheSize` when it is given and non-zero, and 50 otherwise |
| `RecordManagement.MemoryStorage.CreateFile` | src/core/recordManager.ts:5 | The in-memory provider stores the record, answers its file id and logs the call |
| `RecordManagement.MemoryStorage.GetFile` | src/core/recordManager.ts:6 | The in-memory provider answers the stored file (`None` for a rejection) and logs the call |
| `RecordManagement.CacheHit` | src/core/recordManager.ts:27-28 | A cache read is a hit exactly when a truthy value is stored, and then it is that value |
| `RecordManagement.RecordManager.constructor` | src/core/recordManager.ts:20-24 | The manager owns a fresh empty cache of capacity `cacheSize` or 50 |
| `RecordManagement.RecordManager.CreateRecord` | src/core/recordManager.ts:26-36 | On a hit: returns the cached value, refreshes its recency, no storage call. On a miss: exactly one `createFile(folderId, record, record.id)` call, the file id returned, and `id -> fileId` set into the refreshed cache |
| `RecordManagement.RecordManager.GetRecord` | src/core/recordManager.ts:38-47 | On a hit: returns the cached value with no storage call. On a miss: exactly one `getFile` call, its answer returned and cached; a rejection caches nothing |
| `RecordManagement.CreateTwice` | src/core/recordManager.ts:26-36 | Creating the same record twice makes at most one storage call and returns the same id, when the first id is truthy |
| `RecordManagement.GetTwice` | src/core/recordManager.ts:38-47 | Reading the same file twice makes at most one storage call and returns the same file, when the first file is truthy |
| `RecordCodec.Conforms` | src/orm/ORM.ts:103-111 | The validation predicate: every declared field's `typeof` equals its tag. A conforming record holds every declared field, as a string, number or boolean value according to its tag |
| `RecordCodec.FirstMismatchExists` | src/orm/ORM.ts:103-111 | A record that fails validation has a first declared field of the wrong type, which is the field the loop reports |
| `RecordCodec.ConformsIgnoresUndeclared` | src/orm/ORM.ts:103-111 | Validation depends only on the declared fields' values |
| `RecordCodec.HashPieces` | src/orm/ORM.ts:55-57 | The `filter`/`map` stage: at most one piece per hash field, and no piece is empty |
| `RecordCodec.HashInput` | src/orm/ORM.ts:55-58 | The hash input is empty exactly when there are no pieces, and exactly when no hash field of the record is truthy |
| `RecordCodec.TruthyGivesPiece` | src/orm/ORM.ts:56-57 | A truthy hash field always contributes a piece, whatever the other fields hold |
| `RecordCodec.HashPiecesEmpty` | src/orm/ORM.ts:55-57 | There are no hash pieces exactly when every hash field is falsy |
| `RecordCodec.HashPiecesAllTruthy` | src/orm/ORM.ts:55-58 | When every hash field is truthy, the hash input has one piece per hash field: its `toString()`, in `hashFields` order |
| `RecordCodec.HashPiecesAllFalsy` | src/orm/ORM.ts:56 | When every hash field is falsy there are no pieces |
| `RecordCodec.HashPiecesSkipFalsy` | src/orm/ORM.ts:56 | A falsy hash field contributes no piece whatever the other fields hold: removing it from the record leaves the pieces unchanged |
| `RecordCodec.HashPiecesAgree` | src/orm/ORM.ts:55-58 | Two records whose hash fields are equally truthy, and which render alike where truthy, have the same hash pieces |
| `RecordCodec.HashIgnoresOtherFields` | src/orm/ORM.ts:51-60 | Fields outside `hashFields` never influence the hash input |
| `RecordCodec.FalsyValuesHashAlike` | src/orm/ORM.ts:56 | `0`, `false`, `""`, `null` and a missing value give the same hash input |
| `RecordCodec.Encode` | src/orm/ORM.ts:117-124 | `convertRecordToDelimitedString`: for a schema with at least one field, when no value's rendering contains `|`, splitting the text at `|` gives back one piece per schema field, in order |
| `RecordCodec.Decoded` | src/orm/ORM.ts:135-137 | The decoded record has exactly the schema's field names as keys, each holding a string or `undefined` |
| `RecordCodec.DecodedAt` | src/orm/ORM.ts:135-137 | With distinct field names, the i-th field holds the i-th `|` piece, or `undefined` past the last piece |
| `RecordCodec.EncodeSeparators` | src/orm/ORM.ts:122-123 | For a schema with at least one field, the encoded form holds at least `fieldCount - 1` separators, and exactly that many when no value contains `|` |
| `RecordCodec.DecodeEncode` | src/orm/ORM.ts:117-139 | When no value contains `|`, decoding the encoded form gives every field the string of its value (`undefined`/`null` as "") |
| `RecordCodec.DecodeEncodeConforming` | src/orm/ORM.ts:117-139 | For a valid record whose strings are free of `|`, the round trip gives `String(v)` for each field, and exactly `v` for string fields |
| `RecordCodec.DecodedNeedsTypedUpdates` | src/orm/ORM.ts:270-273 | A decoded record merged with updates that leave out a number or boolean field fails validation |
| `Js.FalsyValues` | src/orm/ORM.ts:56 | Truthiness (`Truthy`), as in the hash-field `filter` and the cache test at src/core/recordManager.ts:28: false exactly for `undefined`, `null`, `false`, `0` and `""` |
| `Js.TypeOf` | src/orm/ORM.ts:104 | `typeof`: "object" exactly for `null` and objects, "undefined" exactly for `undefined` |
| `Js.ToJsString` | src/orm/ORM.ts:57 | `toString()` / `String(v)`: a string converts to itself, and only `""` converts to the empty string |
| `Js.Join` | src/orm/ORM.ts:123 | `join`: the result starts with the first piece, and an empty array gives "" |
| `Js.Split` | src/orm/ORM.ts:132 | `split` on one character: at least one piece, and no piece contains the separator |
| `Js.NumToString` | src/orm/ORM.ts:57 | An integer's `toString()` is non-empty and made only of digits and `-` |
| `Js.JoinCount` | src/orm/ORM.ts:123 | `join` with a one-character separator adds at least `n - 1` separators, and exactly that many when no piece contains it |
| `Js.SplitJoin` | src/orm/ORM.ts:132 | `split` undoes `join` when no piece contains the separator |
| `Js.JoinSplit` | src/orm/ORM.ts:132 | `join` undoes `split` for every string |
| `RecordEngine.IndexPathInjective` | src/orm/ORM.ts:170 | Within a table, distinct fields have distinct index files |
| `RecordEngine.RecordPathInjective` | src/orm/ORM.ts:148 | Within a table, distinct hashes have distinct record files |
| `RecordEngine.ReindexStep` | src/orm/ORM.ts:169-195 | Updating one more field's index extends the "indexes updated for this record" relation to that field and keeps every other index |
| `RecordEngine.Orm.HashOf` | src/orm/ORM.ts:51-60 | `generateHashFromFields`: every record whose hash fields are all falsy gets the same name, MD5 of the empty string |
| `RecordEngine.Orm.constructor` | src/orm/ORM.ts:15-18 | A new engine has no schemas and the given store |
| `RecordEngine.Orm.RegisterTableSchema` | src/orm/ORM.ts:26-48 | The schema replaces any earlier one; each indexed field's index becomes empty, replacing an existing one; record files and other indexes are unchanged |
| `RecordEngine.Orm.ValidateRecord` | src/orm/ORM.ts:96-114 | Fails with `SchemaNotFound` without a schema; otherwise passes exactly when every declared field's `typeof` equals its tag, and reports the first failing field |
| `RecordEngine.Orm.ConvertDelimitedStringToRecord` | src/orm/ORM.ts:127-139 | Assigns the pieces to the schema fields in order (the `Decoded` record); nothing without a schema |
| `RecordEngine.Orm.InsertRecord` | src/orm/ORM.ts:142-202 | Invalid or schema-less: nothing is written. Valid: the encoded record is written at `<table>/<md5(hashInput)>`, each indexed field's index (empty when missing) maps `String(record[field])` to that hash, and nothing else changes |
| `RecordEngine.Orm.GetRecordByHash` | src/orm/ORM.ts:205-222 | The decoded record stored at `<table>/<hash>`, holding only strings and `undefined`; nothing when the file or the schema is missing |
| `RecordEngine.Orm.GetRecordByField` | src/orm/ORM.ts:225-256 | Nothing unless the field is indexed, its index exists and maps the value to a truthy hash; then the record stored under that hash |
| `RecordEngine.Orm.UpdateRecordByHash` | src/orm/ORM.ts:259-291 | When the record exists and the merge (updates override) validates, the merge is written at the same path; otherwise nothing is written. Indexes and schemas are never touched |
| `RecordEngine.Orm.DeleteRecordByHash` | src/orm/ORM.ts:294-310 | Removes exactly `<table>/<hash>`; indexes are untouched, a read of that hash then finds nothing, and a read of any other hash of the table finds what it found before |
| `RecordEngine.InsertThenFind` | src/orm/ORM.ts:142-249 | Given MD5 answers that are never empty, distinct field names, and string values free of `|`: after inserting a valid record, a lookup by any indexed field with `String(record[field])` finds it, and each field comes back as `String(v)` |
| `RecordEngine.UpdateWithoutTypedField` | src/orm/ORM.ts:259-291 | An update that leaves out a number or boolean field of the schema writes nothing |
| `RecordEngine.ReRegisterForgetsIndex` | src/orm/ORM.ts:26-45 | After a schema is registered, a lookup through any of its indexed fields finds nothing right after registration |

## Left out

- `RecordManagement.RecordManager.CreateRecord`: requires `record.id` to be a string. The cache keys are strings, so a
  record without a string `id` is outside the model.
- `RecordManagement.CreateTwice` and `RecordManagement.GetTwice`: promise a single storage call only when the first
  answer is truthy. With a falsy answer the second call goes to storage again, as the source does.
- The `StorageProvider` interface is modelled by one in-memory provider. Other providers, and promises that resolve
  out of order, are not modelled.
- `MemoryStorage.CreateFile` never rejects and always answers a non-empty id. Two paths of `createRecord` therefore
  do not occur in the model. A rejected `createFile` (src/core/recordManager.ts:33) propagates its error and caches
  nothing. A falsy file id is cached, and the next `createRecord` of the same id then misses the cache.
- A provider failure during the index updates of `insertRecord` is not modelled. The record file is written first
  (src/orm/ORM.ts:157). A non-404 `getFile` error (src/orm/ORM.ts:183-185) or a failed index write (src/orm/ORM.ts:191)
  then reaches the `catch` with the record stored and the indexes only partly updated, so the source is not
  all-or-nothing there.
- The GitHub provider is not part of this model: base64 transport, SHA fetching, commits, HTTP status codes and the
  retry after a 409 conflict. Provider failures other than a missing file are not modelled.
- Record files and index files are kept in two maps. In the repository they share one namespace, so a caller-supplied
  hash such as `index_f.json` would address an index file. An MD5 hex digest never has that form.
- `JSON.parse` and `JSON.stringify` of index files are not modelled: an index file is its parsed object. Keys inherited
  from `Object.prototype` (such as `constructor`) are not modelled.
- Object keys are kept in declaration order. JavaScript puts integer-like keys first.
- Numbers are integers only. Floating point, `NaN` and the exact JavaScript number-to-string algorithm are not
  modelled.
- `createTable`, `modifyTable`, `deleteTable` and `clearRepo` (src/orm/ORM.ts:64-93, 313-331) are not modelled. They
  only delegate to provider folder operations and log errors.
- `BoundedCache.Cache.constructor`: takes `maxSize` as an argument. The default of 50 for `new Cache()` without one is
  not modelled, because the record manager always passes a size (src/core/recordManager.ts:22).
- `generateUUID` (src/orm/ORM.ts:21-23) is not modelled: it is unused.
- Logging is not modelled.
- Object identity is not modelled: a `Value` is compared by structure. In the source `getRecord` caches and returns
  the same file object (src/core/recordManager.ts:45-46), so a caller that mutates it also changes the cached entry.
  The model does not capture that sharing.
- The concurrency of the fire-and-forget index creation in `registerTableSchema` is not modelled. It runs as a
  sequential loop before the method returns.
- `src/index.ts`, a demo entry point, is not part of this model.
