/**
 * The cache-through record manager: `createRecord` and `getRecord` look in the
 * bounded cache first and go to the storage provider only when the cached
 * value is missing or falsy; what storage returns is then cached.
 *
 * The storage provider is an interface in the source. It is modelled here by
 * an in-memory provider that keeps its files in a map and logs every call it
 * receives, so that the contracts can say which calls reach storage.
 */
module RecordManagement {
  import opened Wrappers
  import opened Js
  import opened BoundedCache

  /** The capacity `options.cacheSize || 50`: a missing or zero size falls back to the default. */
  function EffectiveCacheSize(cacheSize: Option<int>): (n: int)
    ensures cacheSize.Some? && cacheSize.value != 0 ==> n == cacheSize.value
    ensures cacheSize.None? || cacheSize.value == 0 ==> n == DefaultMaxSize
  {
    match cacheSize
    case Some(c) => if Truthy(Num(c)) then c else DefaultMaxSize
    case None => DefaultMaxSize
  }

  /** A call received by the storage provider, with what it answered. */
  datatype StorageCall =
    | CreateFileCall(folderId: string, record: Value, fileName: string, fileId: string)
    | GetFileCall(fileId: string, file: Option<Value>)

  /** An in-memory `StorageProvider`. */
  class MemoryStorage {
    var files: map<string, Value>
    var calls: seq<StorageCall>

    constructor (files: map<string, Value>)
      ensures this.files == files && calls == []
    {
      this.files := files;
      calls := [];
    }

    /** `createFile(folderId, record, fileName)`: stores `record` and answers its file id. */
    method CreateFile(folderId: string, record: Value, fileName: string) returns (fileId: string)
      modifies this
      ensures fileId == folderId + "/" + fileName
      ensures files == old(files)[fileId := record]
      ensures calls == old(calls) + [CreateFileCall(folderId, record, fileName, fileId)]
    {
      fileId := folderId + "/" + fileName;
      files := files[fileId := record];
      calls := calls + [CreateFileCall(folderId, record, fileName, fileId)];
    }

    /** `getFile(fileId)`: the stored file, or `None` when the promise rejects. */
    method GetFile(fileId: string) returns (file: Option<Value>)
      modifies this
      ensures file == if fileId in old(files) then Some(old(files)[fileId]) else None
      ensures files == old(files)
      ensures calls == old(calls) + [GetFileCall(fileId, file)]
    {
      file := if fileId in files then Some(files[fileId]) else None;
      calls := calls + [GetFileCall(fileId, file)];
    }
  }

  /** What a cache read counts as: a hit only when a truthy value is stored (`if (cachedRecord)`). */
  function CacheHit(entries: seq<Entry<Value>>, key: string): (r: Option<Value>)
    ensures r.Some? <==> Lookup(entries, key).Some? && Truthy(Lookup(entries, key).value)
    ensures r.Some? ==> r == Lookup(entries, key)
  {
    match Lookup(entries, key)
    case Some(v) => if Truthy(v) then Some(v) else None
    case None => None
  }

  class RecordManager {
    const storage: MemoryStorage
    const cache: Cache<Value>
    const folderId: string

    ghost predicate Valid()
      reads this, cache
    {
      cache.Valid()
    }

    constructor (storage: MemoryStorage, folderId: string, cacheSize: Option<int>)
      ensures Valid() && fresh(cache)
      ensures this.storage == storage && this.folderId == folderId
      ensures cache.maxSize == EffectiveCacheSize(cacheSize) && cache.entries == []
    {
      this.storage := storage;
      this.folderId := folderId;
      cache := new Cache(EffectiveCacheSize(cacheSize));
    }

    /**
     * `createRecord(record)`: answers a truthy cached value for `record.id`
     * without touching storage; otherwise calls `createFile` once and caches
     * `record.id -> fileId`. The cache lookup refreshes a present key either way.
     */
    method CreateRecord(record: Value) returns (r: Value)
      requires Valid()
      requires Property(record, "id").Str?
      modifies cache, storage
      ensures Valid()
      ensures var id := Property(record, "id").s;
        var hit := CacheHit(old(cache.entries), id);
        if hit.Some? then
          && r == hit.value
          && cache.entries == Touched(old(cache.entries), id)
          && storage.calls == old(storage.calls)
          && storage.files == old(storage.files)
        else
          && r.Str?
          && storage.calls == old(storage.calls) + [CreateFileCall(folderId, record, id, r.s)]
          && storage.files == old(storage.files)[r.s := record]
          && cache.entries == AfterSet(Touched(old(cache.entries), id), cache.maxSize, id, r)
    {
      var id := Property(record, "id").s;
      var cachedRecord := cache.Get(id);
      if cachedRecord.Some? && Truthy(cachedRecord.value) {
        return cachedRecord.value;
      }
      var fileId := storage.CreateFile(folderId, record, id);
      cache.Set(id, Str(fileId));
      return Str(fileId);
    }

    /**
     * `getRecord(fileId)`: answers a truthy cached value without touching
     * storage; otherwise calls `getFile` once and caches what it returns.
     * A rejected `getFile` propagates (`None`) and caches nothing.
     */
    method GetRecord(fileId: string) returns (r: Option<Value>)
      requires Valid()
      modifies cache, storage
      ensures Valid()
      ensures storage.files == old(storage.files)
      ensures var hit := CacheHit(old(cache.entries), fileId);
        if hit.Some? then
          && r == hit
          && cache.entries == Touched(old(cache.entries), fileId)
          && storage.calls == old(storage.calls)
        else
          var file := if fileId in old(storage.files) then Some(old(storage.files)[fileId]) else None;
          && r == file
          && storage.calls == old(storage.calls) + [GetFileCall(fileId, file)]
          && cache.entries == if file.None? then Touched(old(cache.entries), fileId)
                              else AfterSet(Touched(old(cache.entries), fileId), cache.maxSize, fileId, file.value)
    {
      var cachedRecord := cache.Get(fileId);
      if cachedRecord.Some? && Truthy(cachedRecord.value) {
        return cachedRecord;
      }
      var file := storage.GetFile(fileId);
      if file.None? {
        return None;
      }
      cache.Set(fileId, file.value);
      return file;
    }
  }

  /**
   * Creating the same record twice reaches storage at most once when the
   * first answer is truthy: the second call then finds it in the cache.
   */
  method CreateTwice(m: RecordManager, record: Value) returns (first: Value, second: Value)
    requires m.Valid()
    requires Property(record, "id").Str?
    modifies m.cache, m.storage
    ensures Truthy(first) ==> second == first && |m.storage.calls| <= |old(m.storage.calls)| + 1
  {
    var id := Property(record, "id").s;
    first := m.CreateRecord(record);
    GetAfterSetThenTouch(old(m.cache.entries), m.cache.maxSize, id, first);
    second := m.CreateRecord(record);
  }

  /**
   * Reading the same file twice reaches storage at most once when the first
   * answer is a truthy file: the second read then finds it in the cache.
   */
  method GetTwice(m: RecordManager, fileId: string) returns (first: Option<Value>, second: Option<Value>)
    requires m.Valid()
    modifies m.cache, m.storage
    ensures first.Some? && Truthy(first.value) ==>
      second == first && |m.storage.calls| <= |old(m.storage.calls)| + 1
  {
    first := m.GetRecord(fileId);
    if first.Some? {
      GetAfterSetThenTouch(old(m.cache.entries), m.cache.maxSize, fileId, first.value);
    }
    second := m.GetRecord(fileId);
  }

  /**
   * After a miss has cached `id -> value`, the cache holds `value` for `id`;
   * and any hit leaves the hit value in place. Either way the next lookup of
   * `id` finds the value just answered.
   */
  lemma GetAfterSetThenTouch(s: seq<Entry<Value>>, maxSize: int, id: string, r: Value)
    requires DistinctKeys(s)
    ensures CacheHit(s, id).Some? ==> CacheHit(Touched(s, id), id) == CacheHit(s, id)
    ensures Lookup(AfterSet(Touched(s, id), maxSize, id, r), id) == Some(r)
  {
    if Lookup(s, id).Some? {
      GetMovesHitToNewest(s, id);
    }
  }
}
