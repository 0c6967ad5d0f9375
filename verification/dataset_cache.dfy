/**
 The dataset cache of a handle: `get_dataset` answers from the data list
 when it can, refreshes an entry in place from the store otherwise, and a
 lazily opened handle fetches, one dataset at a time, what an eager open
 would have loaded.
 */
module DatasetCache {
  import opened Wrappers
  import opened LogModel
  import opened LogStore

  /**
   A cache hit answers with the cached entry and leaves the handle alone,
   whatever the store holds.
   */
  lemma CacheHitIgnoresStore(s: Store, t: Store, h: Handle, name: string, multiId: int, lazy: bool)
    requires CacheHit(h, name, multiId, lazy, true)
    ensures var at := FindCached(h.contents.dataList, name, multiId, 0);
            && at.Some?
            && GetDataset(s, h, name, multiId, lazy, true) == Ok(Fetched(h.contents.dataList[at.value], h))
            && GetDataset(t, h, name, multiId, lazy, true) == GetDataset(s, h, name, multiId, lazy, true)
  {
  }

  /**
   Outside a cache hit the answer is the dataset read from the stored row.
   With caching and an entry, that entry is replaced by it and every other
   entry is kept; otherwise the data list is left alone.
   */
  lemma FetchReadsStoredRow(s: Store, h: Handle, name: string, multiId: int, lazy: bool, caching: bool, row: DatasetRow)
    requires !CacheHit(h, name, multiId, lazy, caching)
    requires StoredDataset(s, h.pk, name, multiId) == Some(row)
    ensures var dl := h.contents.dataList;
            var at := FindCached(dl, name, multiId, 0);
            var r := GetDataset(s, h, name, multiId, lazy, caching);
            && r.Ok?
            && r.value.dataset == ReadDataset(row, lazy)
            && r.value.handle.contents.dataList == (if caching && at.Some? then dl[at.value := ReadDataset(row, lazy)] else dl)
  {
  }

  /** A lazy fetch that misses the cache yields a dataset without fields or series. */
  lemma LazyFetchIsEmpty(s: Store, h: Handle, name: string, multiId: int, caching: bool)
    requires !CacheHit(h, name, multiId, true, caching)
    requires GetDataset(s, h, name, multiId, true, caching).Ok?
    ensures var d := GetDataset(s, h, name, multiId, true, caching).value.dataset;
            d.fieldData == [] && d.data == map[]
  {
  }

  /** The data list a load leaves is the one read from the record. */
  lemma LoadedDataList(held: LogContents, r: LogRecord, lazy: bool)
    ensures LoadInto(held, r, lazy).dataList == LoadDatasets(r.datasets, lazy)
  {
  }

  /**
   Each loaded entry is read from the first stored row with its name and
   multi id, so fetching that key from the store reads the same row.
   */
  lemma LoadedEntryRow(rows: seq<DatasetRow>, lazy: bool, i: int)
    requires 0 <= i < |rows|
    ensures var e := LoadDatasets(rows, lazy)[i];
            var found := FindDatasetRow(rows, e.name, e.multiId);
            found.Some? && e == ReadDataset(found.value, lazy)
  {
    var sorted := SortDatasetRows(rows);
    assert |sorted| == |multiset(sorted)| == |multiset(rows)| == |rows|;
    assert sorted[i] in multiset(rows);
    var j :| 0 <= j < |rows| && rows[j] == sorted[i];
    var found := FindDatasetRow(rows, sorted[i].name, sorted[i].multiId);
    assert found.Some? && RowToRead(rows, sorted[i]) == found.value;
    assert LoadDatasets(rows, lazy)[i] == ReadDataset(RowToRead(rows, sorted[i]), lazy);
  }

  /**
   A handle opened lazily by key, asked eagerly and with caching for the
   key of any of its entries, answers with the entry an eager open would
   hold at that position, and refreshes its own first entry with that key
   to what an eager open holds there.
   */
  lemma LazyFetchMatchesEagerOpen<F>(s: Store, k: Id, i: int, digestOf: F -> Digest, parse: F -> LogContents)
    requires s.version >= SchemaVersion && k in s.logs
    requires 0 <= i < |s.logs[k].datasets|
    ensures var lazyOpen := Open(s, Some(k), None, true, digestOf, parse);
            var eagerOpen := Open(s, Some(k), None, false, digestOf, parse);
            && lazyOpen.Ok? && eagerOpen.Ok?
            && var dl := lazyOpen.value.contents.dataList;
               var full := eagerOpen.value.contents.dataList;
               && |dl| == |full| && i < |dl|
               && var at := FindCached(dl, dl[i].name, dl[i].multiId, 0);
                  var r := GetDataset(s, lazyOpen.value, dl[i].name, dl[i].multiId, false, true);
                  && at.Some?
                  && r.Ok?
                  && r.value.dataset == full[i]
                  && r.value.handle.contents.dataList == dl[at.value := full[at.value]]
  {
    OpenedDataList(s, k, true, digestOf, parse);
    OpenedDataList(s, k, false, digestOf, parse);
    EagerRefetch(s, Open(s, Some(k), None, true, digestOf, parse).value, i);
  }

  /**
   A handle whose data list is the lazy load of its stored record, asked
   eagerly and with caching for the key of its entry i, answers with the
   eager read of entry i and refreshes the first entry with that key.
   */
  lemma EagerRefetch(s: Store, h: Handle, i: int)
    requires ExistsInDb(s, h.pk)
    requires h.contents.dataList == LoadDatasets(s.logs[h.pk.value].datasets, true)
    requires 0 <= i < |h.contents.dataList|
    ensures var dl := h.contents.dataList;
            var full := LoadDatasets(s.logs[h.pk.value].datasets, false);
            && |dl| == |full|
            && var at := FindCached(dl, dl[i].name, dl[i].multiId, 0);
               var r := GetDataset(s, h, dl[i].name, dl[i].multiId, false, true);
               && at.Some?
               && r.Ok?
               && r.value.dataset == full[i]
               && r.value.handle.contents.dataList == dl[at.value := full[at.value]]
  {
    var rows := s.logs[h.pk.value].datasets;
    var dl := h.contents.dataList;
    LoadedEntryRow(rows, true, i);
    LoadedEntryRow(rows, false, i);
    var row := FindDatasetRow(rows, dl[i].name, dl[i].multiId).value;
    var j := FindCached(dl, dl[i].name, dl[i].multiId, 0).value;
    LoadedEntryRow(rows, false, j);
    LoadedEntryRow(rows, true, j);
    FetchReadsStoredRow(s, h, dl[i].name, dl[i].multiId, false, true, row);
  }

  /** A log opened by its key holds the data list read from its record. */
  lemma OpenedDataList<F>(s: Store, k: Id, lazy: bool, digestOf: F -> Digest, parse: F -> LogContents)
    requires s.version >= SchemaVersion && k in s.logs
    ensures var o := Open(s, Some(k), None, lazy, digestOf, parse);
            o.Ok? && o.value.pk == Some(k) && o.value.contents.dataList == LoadDatasets(s.logs[k].datasets, lazy)
  {
    LoadedDataList(EmptyContents, s.logs[k], lazy);
  }
}
