/**
 The operations of a database-backed log handle as transitions of an
 abstract store: opening a handle, loading, fetching one dataset through
 the handle's data list, saving once, deleting, and the write guard.
 */
module LogStore {
  import opened Wrappers
  import opened FlagCodec
  import opened LogModel

  /** The schema version this code reads and writes. */
  const SchemaVersion := 5

  /** The store and handle after an operation, and what it returned or raised. */
  datatype Outcome<T> = Outcome(store: Store, handle: Handle, result: Result<T, StoreError>)

  /** A log row with this key exists; no row has a missing key. */
  predicate ExistsInDb(s: Store, pk: Option<Id>) {
    pk.Some? && pk.value in s.logs
  }

  /** The first key at or after `from`, in key order, of a log with this digest. */
  function FirstWithDigest(s: Store, digest: Digest, from: nat): (r: Option<Id>)
    ensures r.Some? ==> from <= r.value && r.value in s.logs && s.logs[r.value].digest == digest
    ensures r.None? ==> forall id :: from <= id < s.nextId && id in s.logs ==> s.logs[id].digest != digest
    decreases s.nextId - from
  {
    if from >= s.nextId then None
    else if from in s.logs && s.logs[from].digest == digest then Some(from)
    else FirstWithDigest(s, digest, from + 1)
  }

  /** `primary_key_from_sha256sum`: the key of a stored log with this digest, if any. */
  function PrimaryKeyFromDigest(s: Store, digest: Digest): (r: Option<Id>)
    ensures r.Some? ==> r.value in s.logs && s.logs[r.value].digest == digest
    ensures KeysBelowNext(s) && r.None? ==> forall id :: id in s.logs ==> s.logs[id].digest != digest
  {
    FirstWithDigest(s, digest, 0)
  }

  /**
   `load`: fails when no log has the handle's key; otherwise reads the stored
   log into the handle and records whether it was read lazily.
   */
  function Load(s: Store, h: Handle, lazy: bool): (r: Result<Handle, StoreError>)
    ensures r.Ok? <==> ExistsInDb(s, h.pk)
    ensures r.Err? ==> r.error == LogNotFound(h.pk)
    ensures r.Ok? ==> r.value.pk == h.pk && r.value.lazyLoaded == lazy
    ensures r.Ok? ==> r.value.digest == s.logs[h.pk.value].digest
  {
    if !ExistsInDb(s, h.pk) then Err(LogNotFound(h.pk))
    else
      var stored := s.logs[h.pk.value];
      Ok(h.(lazyLoaded := lazy, digest := stored.digest, contents := LoadInto(h.contents, stored, lazy)))
  }

  /**
   The constructor: the schema gate comes first, then exactly one of a key
   and a file must be given. A file is parsed by `parse` and hashed by
   `digestOf` (file reading and hashing are outside the model); a key is
   loaded into an empty handle.
   */
  function Open<F>(s: Store, primaryKey: Option<Id>, logFile: Option<F>, lazy: bool,
                   digestOf: F -> Digest, parse: F -> LogContents): (r: Result<Handle, StoreError>)
    ensures s.version < SchemaVersion ==> r == Err(MigrationNeeded(s.version))
    ensures s.version >= SchemaVersion && primaryKey.Some? && logFile.Some? ==> r == Err(BothKeyAndFile)
    ensures s.version >= SchemaVersion && primaryKey.None? && logFile.None? ==> r == Err(NeitherKeyNorFile)
    ensures r.Ok? ==> r.value.pk == primaryKey && r.value.lazyLoaded == lazy
    ensures r.Ok? && logFile.Some? ==> r.value.contents == parse(logFile.value) && r.value.digest == digestOf(logFile.value)
    ensures s.version >= SchemaVersion && primaryKey.Some? && logFile.None? ==> (r.Ok? <==> primaryKey.value in s.logs)
  {
    if s.version < SchemaVersion then Err(MigrationNeeded(s.version))
    else if logFile.Some? && primaryKey.Some? then Err(BothKeyAndFile)
    else if logFile.None? && primaryKey.None? then Err(NeitherKeyNorFile)
    else if logFile.Some? then Ok(Handle(None, lazy, digestOf(logFile.value), parse(logFile.value)))
    else Load(s, Handle(primaryKey, lazy, [], EmptyContents), lazy)
  }

  /** `write_ulog`: the contents to write, unless the handle was loaded lazily. */
  function WriteULog(h: Handle): (r: Result<LogContents, StoreError>)
    ensures r.Ok? <==> !h.lazyLoaded
    ensures r.Ok? ==> r.value == h.contents
  {
    if h.lazyLoaded then Err(WriteAfterLazyLoad) else Ok(h.contents)
  }

  // ---- get_dataset ----

  /** A dataset and the handle after fetching it. */
  datatype Fetched = Fetched(dataset: Dataset, handle: Handle)

  /** The position of the first entry of the data list with this name and multi id. */
  function FindCached(dl: seq<Dataset>, name: string, multiId: int, from: nat): (r: Option<nat>)
    ensures r.Some? ==> from <= r.value < |dl| && dl[r.value].name == name && dl[r.value].multiId == multiId
    ensures r.Some? ==> forall i :: from <= i < r.value ==> !(dl[i].name == name && dl[i].multiId == multiId)
    ensures r.None? ==> forall i :: from <= i < |dl| ==> !(dl[i].name == name && dl[i].multiId == multiId)
    decreases |dl| - from
  {
    if from >= |dl| then None
    else if dl[from].name == name && dl[from].multiId == multiId then Some(from)
    else FindCached(dl, name, multiId, from + 1)
  }

  /** The stored dataset row the query for this name and multi id returns. */
  function StoredDataset(s: Store, pk: Option<Id>, name: string, multiId: int): Option<DatasetRow> {
    if ExistsInDb(s, pk) then FindDatasetRow(s.logs[pk.value].datasets, name, multiId) else None
  }

  /**
   The cache answers without reading the store: caching is on, the data
   list has an entry, and either a lazy fetch was asked for or the entry
   holds series.
   */
  predicate CacheHit(h: Handle, name: string, multiId: int, lazy: bool, caching: bool) {
    var at := FindCached(h.contents.dataList, name, multiId, 0);
    caching && at.Some? && (lazy || |h.contents.dataList[at.value].data| > 0)
  }

  /**
   `get_dataset`: a cache hit returns the entry as it is; otherwise the
   stored row is read (lazily: without fields or series). With caching and
   an entry the entry is refreshed in place; otherwise a fresh dataset is
   returned and the data list is left alone.
   */
  function GetDataset(s: Store, h: Handle, name: string, multiId: int, lazy: bool, caching: bool): (r: Result<Fetched, StoreError>)
    ensures r.Ok? ==> r.value.handle == h.(contents := h.contents.(dataList := r.value.handle.contents.dataList))
    ensures r.Ok? ==> |r.value.handle.contents.dataList| == |h.contents.dataList|
    ensures !CacheHit(h, name, multiId, lazy, caching) ==> (r.Ok? <==> StoredDataset(s, h.pk, name, multiId).Some?)
    ensures r.Err? ==> r.error == DatasetNotFound(name, multiId)
    ensures r.Ok? ==> r.value.dataset.name == name && r.value.dataset.multiId == multiId
  {
    var dl := h.contents.dataList;
    var at := FindCached(dl, name, multiId, 0);
    if CacheHit(h, name, multiId, lazy, caching) then Ok(Fetched(dl[at.value], h))
    else
      match StoredDataset(s, h.pk, name, multiId)
      case None => Err(DatasetNotFound(name, multiId))
      case Some(row) =>
        var read := ReadDataset(row, lazy);
        if caching && at.Some? then
          var refreshed := dl[at.value].(msgId := read.msgId, timestampIdx := read.timestampIdx,
                                         fieldData := read.fieldData, data := read.data);
          Ok(Fetched(refreshed, h.(contents := h.contents.(dataList := dl[at.value := refreshed]))))
        else Ok(Fetched(read, h))
  }

  // ---- save and delete ----

  /**
   When a failed save sets the handle's key: as written, the key of the
   inserted log row is recorded before the later inserts that can fail; the
   corrected save records it only once every row is written.
   */
  datatype KeyRule = KeyAtFirstInsert | KeyAfterAllInserts

  /**
   `save` under a rule for when the key is recorded. A stored handle is
   refused; a stored digest is adopted and refused; unstorable flags and a
   field without a series roll the store back; otherwise the log is stored
   under a fresh key.
   */
  function SaveUnder(s: Store, h: Handle, appendJson: bool, rule: KeyRule): (o: Outcome<Id>)
    requires KeysBelowNext(s)
    ensures o.store == s || o.result.Ok?
    ensures o.handle.lazyLoaded == h.lazyLoaded && o.handle.digest == h.digest && o.handle.contents == h.contents
    ensures h.pk.Some? ==> o == Outcome(s, h, Err(AlreadyPersisted))
    ensures o.result.Ok? ==> o.result.value == s.nextId && o.handle.pk == Some(s.nextId)
    ensures o.result.Ok? ==> o.store.logs.Keys == s.logs.Keys + {s.nextId} && o.store.nextId == s.nextId + 1
    ensures o.result.Ok? ==> forall id :: id in s.logs ==> o.store.logs[id] == s.logs[id]
    ensures o.result.Ok? ==> o.store.logs[s.nextId].digest == h.digest
    ensures o.store.version == s.version
    ensures o.result.Err? && o.result.error.DuplicateDigest? ==>
              o.handle.pk == Some(o.result.error.existing) && PrimaryKeyFromDigest(s, h.digest) == o.handle.pk
    ensures o.result.Err? && !o.result.error.DuplicateDigest? && o.handle.pk != h.pk ==>
              rule == KeyAtFirstInsert && o.result.error == MissingFieldData && o.handle.pk == Some(s.nextId)
  {
    if h.pk.Some? then Outcome(s, h, Err(AlreadyPersisted))
    else
      match PrimaryKeyFromDigest(s, h.digest)
      case Some(existing) => Outcome(s, h.(pk := Some(existing)), Err(DuplicateDigest(existing)))
      case None =>
        var compat := EncodeFlags(h.contents.compatFlags);
        var incompat := EncodeFlags(h.contents.incompatFlags);
        if compat.None? || incompat.None? then Outcome(s, h, Err(FlagNotStorable))
        else if !Writable(h.contents.dataList, appendJson) then
          Outcome(s, if rule == KeyAtFirstInsert then h.(pk := Some(s.nextId)) else h, Err(MissingFieldData))
        else
          var id := s.nextId;
          var stored := RecordOf(h.contents, h.digest, compat.value, incompat.value);
          Outcome(Store(s.version, s.logs[id := stored], id + 1), h.(pk := Some(id)), Ok(id))
  }

  /**
   `save` as written: the log row's key is recorded before the dataset rows
   are inserted, so a failure on a field without a series leaves that key in
   the handle while the store rolls back.
   */
  function Save(s: Store, h: Handle, appendJson: bool): (o: Outcome<Id>)
    requires KeysBelowNext(s)
    ensures o.result.Err? ==> o.store == s
    ensures o.result.Err? ==> o.handle.pk == h.pk || o.result.error.DuplicateDigest? || o.result.error == MissingFieldData
    ensures o.result.Err? && o.result.error.DuplicateDigest? ==> o.handle.pk == Some(o.result.error.existing)
    ensures o.result == Err(MissingFieldData) ==> o.handle.pk == Some(s.nextId) && s.nextId !in o.store.logs
  {
    SaveUnder(s, h, appendJson, KeyAtFirstInsert)
  }

  /** `save` with the key recorded only when every row is written. */
  function SaveCorrected(s: Store, h: Handle, appendJson: bool): (o: Outcome<Id>)
    requires KeysBelowNext(s)
    ensures o.result.Err? ==> o.store == s
    ensures o.result.Err? ==> o.handle.pk == h.pk || o.result.error.DuplicateDigest?
    ensures o.result.Err? && o.result.error.DuplicateDigest? ==> o.handle.pk == Some(o.result.error.existing)
  {
    SaveUnder(s, h, appendJson, KeyAfterAllInserts)
  }

  /**
   `delete`: refused for a handle without a key; otherwise the log with the
   handle's key and everything filed under it are removed (nothing is
   removed when there is none) and the handle forgets its key.
   */
  function Delete(s: Store, h: Handle): (o: Outcome<()>)
    ensures h.pk.None? ==> o == Outcome(s, h, Err(NotPersisted))
    ensures h.pk.Some? ==> o.result.Ok? && o.handle == h.(pk := None)
    ensures h.pk.Some? ==> o.store.logs.Keys == s.logs.Keys - {h.pk.value}
    ensures forall id :: id in o.store.logs ==> id in s.logs && o.store.logs[id] == s.logs[id]
    ensures o.store.version == s.version && o.store.nextId == s.nextId
  {
    if h.pk.None? then Outcome(s, h, Err(NotPersisted))
    else Outcome(s.(logs := s.logs - {h.pk.value}), h.(pk := None), Ok(()))
  }
}
