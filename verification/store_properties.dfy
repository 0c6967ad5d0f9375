/**
 Properties of the store's transitions: saving is write-once and keeps
 digests unique, a saved log opens back to what was saved, deleting makes
 a log unreachable and allows saving again, and the key a failed save
 leaves behind.
 */
module StoreProperties {
  import opened Wrappers
  import opened SeriesOrder
  import opened FlagCodec
  import opened LogModel
  import opened LogStore
  import opened RoundTrip

  /** Some stored log has this digest. */
  ghost predicate DigestStored(s: Store, digest: Digest) {
    exists id :: id in s.logs && s.logs[id].digest == digest
  }

  /** Saving, under either key rule, keeps keys below the next key and digests unique. */
  lemma SavePreservesValid(s: Store, h: Handle, appendJson: bool, rule: KeyRule)
    requires Valid(s)
    ensures Valid(SaveUnder(s, h, appendJson, rule).store)
  {
    var o := SaveUnder(s, h, appendJson, rule);
    if o.result.Ok? {
      assert h.pk.None? && PrimaryKeyFromDigest(s, h.digest).None?;
      forall a, b | a in o.store.logs && b in o.store.logs && o.store.logs[a].digest == o.store.logs[b].digest
        ensures a == b
      {
        if a != s.nextId && b != s.nextId {
          assert o.store.logs[a] == s.logs[a] && o.store.logs[b] == s.logs[b];
        }
      }
    }
  }

  /** Deleting keeps keys below the next key and digests unique. */
  lemma DeletePreservesValid(s: Store, h: Handle)
    requires Valid(s)
    ensures Valid(Delete(s, h).store)
  {
  }

  /**
   When a handle without a key saves, the save succeeds exactly when no
   stored log has its digest, its flags are storable and every declared
   field has a series (and, with the JSON column, a timestamp series).
   */
  lemma SaveSucceedsIff(s: Store, h: Handle, appendJson: bool)
    requires Valid(s)
    requires h.pk.None?
    ensures Save(s, h, appendJson).result.Ok? <==>
              && !DigestStored(s, h.digest)
              && EncodeFlags(h.contents.compatFlags).Some? && EncodeFlags(h.contents.incompatFlags).Some?
              && Writable(h.contents.dataList, appendJson)
  {
    var found := PrimaryKeyFromDigest(s, h.digest);
    if found.Some? {
      assert DigestStored(s, h.digest);
    }
  }

  /**
   Saving a log whose digest is stored adopts the stored log's key and
   fails, leaving the store as it was.
   */
  lemma SaveAdoptsStoredDigest(s: Store, h: Handle, appendJson: bool, id: Id)
    requires Valid(s)
    requires h.pk.None?
    requires id in s.logs && s.logs[id].digest == h.digest
    ensures Save(s, h, appendJson) == Outcome(s, h.(pk := Some(id)), Err(DuplicateDigest(id)))
  {
    var found := PrimaryKeyFromDigest(s, h.digest);
    assert found.Some?;
  }

  /** A handle that saved cannot save again. */
  lemma SaveIsWriteOnce(s: Store, h: Handle, appendJson: bool, again: bool)
    requires Valid(s)
    requires Save(s, h, appendJson).result.Ok?
    ensures var o := Save(s, h, appendJson);
            KeysBelowNext(o.store) && Save(o.store, o.handle, again) == Outcome(o.store, o.handle, Err(AlreadyPersisted))
  {
    SavePreservesValid(s, h, appendJson, KeyAtFirstInsert);
  }

  /** After the corrected save, a handle that did not have a key has one only if it names a stored log. */
  lemma SavedKeyNamesStoredLog(s: Store, h: Handle, appendJson: bool)
    requires KeysBelowNext(s)
    requires h.pk.None?
    ensures var o := SaveCorrected(s, h, appendJson);
            o.handle.pk.Some? ==> o.handle.pk.value in o.store.logs
  {
  }

  /**
   The save as written and the corrected one store the same and answer the
   same; they differ only in the key a save failing on a field without a
   series leaves in the handle.
   */
  lemma SaveRulesDifferOnlyInDanglingKey(s: Store, h: Handle, appendJson: bool)
    requires KeysBelowNext(s)
    ensures var o := Save(s, h, appendJson);
            var c := SaveCorrected(s, h, appendJson);
            && o.store == c.store && o.result == c.result
            && (o.result != Err(MissingFieldData) ==> o == c)
            && (o.result == Err(MissingFieldData) ==> c.handle == h && o.handle == h.(pk := Some(s.nextId)))
  {
  }

  /**
   As written, a save that fails on a field without a series leaves the
   handle holding a key that no stored log has.
   */
  lemma AsWrittenSaveLeavesDanglingKey(s: Store, h: Handle, appendJson: bool)
    requires KeysBelowNext(s)
    requires h.pk.None?
    requires PrimaryKeyFromDigest(s, h.digest).None?
    requires EncodeFlags(h.contents.compatFlags).Some? && EncodeFlags(h.contents.incompatFlags).Some?
    requires !Writable(h.contents.dataList, appendJson)
    ensures var o := Save(s, h, appendJson);
            && o.result == Err(MissingFieldData)
            && o.store == s
            && o.handle.pk == Some(s.nextId)
            && s.nextId !in o.store.logs
  {
  }

  /**
   The dangling key is the key the next successful save receives, so
   deleting through the failed handle deletes that other log.
   */
  lemma DanglingKeyDeletesNextLog(s: Store, h: Handle, other: Handle, appendJson: bool, otherJson: bool)
    requires Valid(s)
    requires h.pk.None? && PrimaryKeyFromDigest(s, h.digest).None?
    requires EncodeFlags(h.contents.compatFlags).Some? && EncodeFlags(h.contents.incompatFlags).Some?
    requires !Writable(h.contents.dataList, appendJson)
    requires Save(s, other, otherJson).result.Ok?
    ensures var failed := Save(s, h, appendJson);
            var saved := Save(failed.store, other, otherJson);
            && saved.result == Ok(failed.handle.pk.value)
            && Delete(saved.store, failed.handle).store.logs == s.logs
  {
    AsWrittenSaveLeavesDanglingKey(s, h, appendJson);
    SaveStoresRecord(s, other, otherJson);
    var saved := Save(s, other, otherJson);
    var after := Delete(saved.store, h.(pk := Some(s.nextId))).store.logs;
    assert after.Keys == s.logs.Keys;
  }

  /** A log with one dataset declaring a series that it does not hold. */
  const SeriesMissing := EmptyContents.(dataList := [Dataset("vehicle_status", 0, 0, 0, [FieldData("timestamp", "uint64_t")], map[])])

  /** An empty store at the schema version; the first key handed out is 1, the first rowid of an empty table. */
  const EmptyStore := Store(SchemaVersion, map[], 1)

  /**
   On an empty store, saving a log whose dataset lacks its declared series
   leaves the first key, 1, in the handle as written, and no key in the
   corrected save.
   */
  lemma DanglingKeyExample()
    ensures var h := Handle(None, false, "digest", SeriesMissing);
            && Save(EmptyStore, h, false).handle.pk == Some(1)
            && 1 !in Save(EmptyStore, h, false).store.logs
            && SaveCorrected(EmptyStore, h, false).handle.pk == None
  {
    var h := Handle(None, false, "digest", SeriesMissing);
    var ds := SeriesMissing.dataList[0];
    assert ds.fieldData[0].fieldName == "timestamp" && ds.data == map[];
    assert !FieldsPresent(ds);
    assert !Writable(h.contents.dataList, false);
  }

  /** The data list a lazy load yields: entries without fields or series. */
  function Blanked(dl: seq<Dataset>): (r: seq<Dataset>)
    ensures |r| == |dl|
  {
    seq(|dl|, i requires 0 <= i < |dl| => dl[i].(fieldData := [], data := map[]))
  }

  /** A lazy load of a saved data list yields the same datasets without fields or series. */
  lemma LazyDatasetsRoundTrip(dl: seq<Dataset>)
    requires OrderedByKey(dl)
    requires forall i :: 0 <= i < |dl| ==> FieldsExact(dl[i])
    ensures forall i :: 0 <= i < |dl| ==> FieldsPresent(dl[i])
    ensures LoadDatasets(RowsOfDatasets(dl), true) == Blanked(dl)
  {
    DatasetsRoundTrip(dl);
    var rows := RowsOfDatasets(dl);
    assert StrictlySortedBy(rows, DatasetRowLe);
    DatasetRowLeIsTotalPreorder();
    SortedUnique(SortDatasetRows(rows), rows, DatasetRowLe);
    var loaded := LoadDatasets(rows, true);
    forall i | 0 <= i < |dl|
      ensures loaded[i] == Blanked(dl)[i]
    {
      FirstRowIsOwnRow(rows, i);
    }
  }

  /** A successful save stores the log's record under the next key and gives the handle that key. */
  lemma SaveStoresRecord(s: Store, h: Handle, appendJson: bool)
    requires KeysBelowNext(s)
    requires Save(s, h, appendJson).result.Ok?
    ensures var o := Save(s, h, appendJson);
            && EncodeFlags(h.contents.compatFlags).Some? && EncodeFlags(h.contents.incompatFlags).Some?
            && o.result == Ok(s.nextId)
            && o.handle == h.(pk := Some(s.nextId))
            && o.store.version == s.version
            && s.nextId in o.store.logs
            && o.store.logs[s.nextId] == RecordOf(h.contents, h.digest,
                 EncodeFlags(h.contents.compatFlags).value, EncodeFlags(h.contents.incompatFlags).value)
  {
  }

  /** Opening a stored log by its key loads its record into an empty handle. */
  lemma OpenStoredLog<F>(s: Store, k: Id, lazy: bool, digestOf: F -> Digest, parse: F -> LogContents)
    requires s.version >= SchemaVersion && k in s.logs
    ensures Open(s, Some(k), None, lazy, digestOf, parse)
              == Ok(Handle(Some(k), lazy, s.logs[k].digest, LoadInto(EmptyContents, s.logs[k], lazy)))
  {
  }

  /**
   A saved log opened eagerly by its key is the saved handle: same key,
   digest and contents, and it can be written out again.
   */
  lemma SaveThenOpen<F>(s: Store, h: Handle, appendJson: bool, digestOf: F -> Digest, parse: F -> LogContents)
    requires KeysBelowNext(s) && s.version >= SchemaVersion
    requires Reloadable(h.contents)
    requires Save(s, h, appendJson).result.Ok?
    ensures var o := Save(s, h, appendJson);
            var reopened := Open(o.store, o.handle.pk, None, false, digestOf, parse);
            && reopened == Ok(o.handle.(lazyLoaded := false))
            && WriteULog(reopened.value) == Ok(h.contents)
  {
    SaveStoresRecord(s, h, appendJson);
    var o := Save(s, h, appendJson);
    var r := RecordOf(h.contents, h.digest,
                      EncodeFlags(h.contents.compatFlags).value, EncodeFlags(h.contents.incompatFlags).value);
    OpenStoredLog(o.store, s.nextId, false, digestOf, parse);
    SaveThenLoad(h.contents, h.digest,
                 EncodeFlags(h.contents.compatFlags).value, EncodeFlags(h.contents.incompatFlags).value);
    assert r.digest == h.digest;
  }

  /**
   A saved log opened lazily by its key has the saved contents except
   that its datasets carry no fields or series, and it cannot be written.
   */
  lemma SaveThenOpenLazily<F>(s: Store, h: Handle, appendJson: bool, digestOf: F -> Digest, parse: F -> LogContents)
    requires KeysBelowNext(s) && s.version >= SchemaVersion
    requires Reloadable(h.contents)
    requires Save(s, h, appendJson).result.Ok?
    ensures var o := Save(s, h, appendJson);
            var reopened := Open(o.store, o.handle.pk, None, true, digestOf, parse);
            && reopened.Ok?
            && reopened.value.contents == h.contents.(dataList := Blanked(h.contents.dataList))
            && WriteULog(reopened.value).Err?
  {
    SaveStoresRecord(s, h, appendJson);
    var o := Save(s, h, appendJson);
    var r := RecordOf(h.contents, h.digest,
                      EncodeFlags(h.contents.compatFlags).value, EncodeFlags(h.contents.incompatFlags).value);
    OpenStoredLog(o.store, s.nextId, true, digestOf, parse);
    SaveThenLoad(h.contents, h.digest,
                 EncodeFlags(h.contents.compatFlags).value, EncodeFlags(h.contents.incompatFlags).value);
    LazyLoadBlanksOnlyDatasets(EmptyContents, r);
    LazyDatasetsRoundTrip(h.contents.dataList);
    assert r.datasets == RowsOfDatasets(h.contents.dataList);
  }

  /** A lazy load differs from an eager one only in the data list. */
  lemma LazyLoadBlanksOnlyDatasets(held: LogContents, r: LogRecord)
    ensures LoadInto(held, r, true) == LoadInto(held, r, false).(dataList := LoadDatasets(r.datasets, true))
  {
    var eager := ReadRecord(r, false);
    assert ReadRecord(r, true) == eager.(dataList := LoadDatasets(r.datasets, true));
    AbsorbTakesDataList(held, eager, LoadDatasets(r.datasets, true));
  }

  /** The data list of a load is the one read, whatever the handle held. */
  lemma AbsorbTakesDataList(held: LogContents, read: LogContents, dl: seq<Dataset>)
    ensures Absorb(held, read.(dataList := dl)) == Absorb(held, read).(dataList := dl)
  {
  }

  /** After a delete no handle can load the deleted log. */
  lemma DeleteThenLoadFails(s: Store, h: Handle, other: Handle, lazy: bool)
    requires h.pk.Some? && other.pk == h.pk
    ensures Load(Delete(s, h).store, other, lazy) == Err(LogNotFound(h.pk))
  {
  }

  /**
   After deleting its own log, a handle may save again: the save succeeds
   exactly when its flags are storable and its fields have series.
   */
  lemma DeleteThenSaveAgain(s: Store, h: Handle, appendJson: bool)
    requires Valid(s)
    requires h.pk.Some? && h.pk.value in s.logs && s.logs[h.pk.value].digest == h.digest
    ensures var d := Delete(s, h);
            Valid(d.store) &&
            (Save(d.store, d.handle, appendJson).result.Ok? <==>
              EncodeFlags(h.contents.compatFlags).Some? && EncodeFlags(h.contents.incompatFlags).Some?
              && Writable(h.contents.dataList, appendJson))
  {
    var d := Delete(s, h);
    DeletePreservesValid(s, h);
    SaveSucceedsIff(d.store, d.handle, appendJson);
  }
}
