/**
 The log store's entities: what a log handle holds in memory, what one stored
 log consists of (one field per table the store writes), the store itself,
 and the two conversions between them that `save` and `load` perform.
 */
module LogModel {
  import opened Wrappers
  import opened SeriesOrder
  import opened FlagCodec

  /** The primary key of a stored log. */
  type Id = nat
  /** A file digest; the hash function itself is not modelled. */
  type Digest = string
  /** A stored value, opaque to the store. */
  type Value = string

  /** A field declaration of a dataset: its name and type tag. */
  datatype FieldData = FieldData(fieldName: string, typeStr: string)

  /** One dataset (topic instance) of a log with its field series as raw bytes. */
  datatype Dataset = Dataset(
    name: string,
    multiId: int,
    msgId: int,
    timestampIdx: int,
    fieldData: seq<FieldData>,
    data: map<string, seq<int>>)

  datatype Dropout = Dropout(timestamp: int, duration: int)
  datatype Logging = Logging(logLevel: int, timestamp: int, message: string)
  datatype TaggedLogging = TaggedLogging(logLevel: int, tag: int, timestamp: int, message: string)
  /** A field of a message format: type, array size and name. */
  datatype FormatField = FormatField(fieldType: string, arraySize: int, name: string)
  /** An information message value with its type name. */
  datatype TypedValue = TypedValue(typename: string, value: Value)
  /** A multi-value information entry: its type name and its list of lists. */
  datatype InfoMultiple = InfoMultiple(typename: string, lists: seq<seq<Value>>)
  datatype ChangedParameter = ChangedParameter(timestamp: int, key: string, value: Value)

  /** The contents of a log as a handle holds them. */
  datatype LogContents = LogContents(
    fileVersion: int,
    startTimestamp: int,
    lastTimestamp: int,
    compatFlags: seq<int>,
    incompatFlags: seq<int>,
    syncCount: int,
    hasSync: bool,
    appendedOffsets: seq<int>,
    dataList: seq<Dataset>,
    dropouts: seq<Dropout>,
    loggedMessages: seq<Logging>,
    loggedMessagesTagged: map<int, seq<TaggedLogging>>,
    messageFormats: map<string, seq<FormatField>>,
    msgInfo: map<string, TypedValue>,
    msgInfoMultiple: map<string, InfoMultiple>,
    initialParameters: map<string, Value>,
    defaultParameters: map<int, map<string, Value>>,
    changedParameters: seq<ChangedParameter>)

  /** What a handle opened by primary key starts from before it loads. */
  const EmptyContents := LogContents(0, 0, 0, [], [], 0, false, [], [], [], [], map[], map[], map[], map[], map[], map[], [])

  /** A stored field series: name, type tag and bytes. */
  datatype FieldRow = FieldRow(topicName: string, dataType: string, valueArray: seq<int>)
  /** A stored dataset with its field rows. */
  datatype DatasetRow = DatasetRow(name: string, multiId: int, msgId: int, timestampIdx: int, fields: seq<FieldRow>)
  /** A stored tagged log message; its tag is the key it is filed under. */
  datatype TaggedRow = TaggedRow(logLevel: int, timestamp: int, message: string)
  /** A stored multi-value information entry: numbered lists of numbered values. */
  datatype InfoMultipleRow = InfoMultipleRow(typename: string, lists: seq<Indexed<seq<Indexed<Value>>>>)

  /**
   One stored log: the log row and, as fields, the rows of every table that
   refers to it. Deleting the log row deletes them all.
   */
  datatype LogRecord = LogRecord(
    fileVersion: int,
    startTimestamp: int,
    lastTimestamp: int,
    compatFlags: string,
    incompatFlags: string,
    syncCount: int,
    hasSync: bool,
    digest: Digest,
    appendedOffsets: seq<Indexed<int>>,
    datasets: seq<DatasetRow>,
    dropouts: seq<Dropout>,
    loggedMessages: seq<Logging>,
    loggedMessagesTagged: map<int, seq<TaggedRow>>,
    messageFormats: map<string, seq<FormatField>>,
    msgInfo: map<string, TypedValue>,
    msgInfoMultiple: map<string, InfoMultipleRow>,
    initialParameters: map<string, Value>,
    defaultParameters: map<int, map<string, Value>>,
    changedParameters: seq<ChangedParameter>)

  /**
   The store: its schema version, the stored logs by primary key, and the
   next fresh key. A save that rolls back does not advance `nextId`.
   */
  datatype Store = Store(version: int, logs: map<Id, LogRecord>, nextId: Id)

  /** Every key is below the next fresh key, so the next key is unused: what the database's key allocation keeps. */
  predicate KeysBelowNext(s: Store) {
    forall id :: id in s.logs ==> id < s.nextId
  }

  /** No two logs share a digest: what saving through the digest check keeps. */
  predicate DigestsUnique(s: Store) {
    forall a, b :: a in s.logs && b in s.logs && s.logs[a].digest == s.logs[b].digest ==> a == b
  }

  predicate Valid(s: Store) {
    KeysBelowNext(s) && DigestsUnique(s)
  }

  /**
   A log handle: its primary key when it is stored, whether it was loaded
   lazily, the digest of its file, and its contents.
   */
  datatype Handle = Handle(pk: Option<Id>, lazyLoaded: bool, digest: Digest, contents: LogContents)

  datatype StoreError =
    | MigrationNeeded(found: int)      // ValueError: the store's version is below the schema version
    | BothKeyAndFile                   // ValueError
    | NeitherKeyNorFile                // ValueError
    | LogNotFound(key: Option<Id>)     // KeyError from load
    | AlreadyPersisted                 // KeyError from save on a stored handle
    | DuplicateDigest(existing: Id)    // KeyError from save when the digest is stored
    | FlagNotStorable                  // ValueError or encoding error from a flag outside the code points
    | MissingFieldData                 // KeyError from save on a field without a series
    | DatasetNotFound(name: string, multiId: int)  // KeyError from get_dataset
    | NotPersisted                     // KeyError from delete on an unsaved handle
    | WriteAfterLazyLoad               // ValueError from write_ulog

  // ---- save side: contents to rows ----

  /** Every declared field of the dataset has a series. */
  predicate FieldsPresent(ds: Dataset) {
    forall j :: 0 <= j < |ds.fieldData| ==> ds.fieldData[j].fieldName in ds.data
  }

  /**
   Writing the datasets raises no KeyError: every declared field has a
   series, and with the JSON column every dataset that has fields also has a
   "timestamp" series.
   */
  predicate Writable(dataList: seq<Dataset>, appendJson: bool) {
    forall i :: 0 <= i < |dataList| ==>
      FieldsPresent(dataList[i]) && (appendJson && |dataList[i].fieldData| > 0 ==> "timestamp" in dataList[i].data)
  }

  function FieldRowsOf(ds: Dataset): (r: seq<FieldRow>)
    requires FieldsPresent(ds)
  {
    seq(|ds.fieldData|, j requires 0 <= j < |ds.fieldData| =>
      FieldRow(ds.fieldData[j].fieldName, ds.fieldData[j].typeStr, ds.data[ds.fieldData[j].fieldName]))
  }

  function DatasetRowOf(ds: Dataset): DatasetRow
    requires FieldsPresent(ds)
  {
    DatasetRow(ds.name, ds.multiId, ds.msgId, ds.timestampIdx, FieldRowsOf(ds))
  }

  /** Tagged messages are written with their key as the tag; a key with no messages writes no row. */
  function TaggedRowsOf(tagged: map<int, seq<TaggedLogging>>): map<int, seq<TaggedRow>> {
    map t | t in tagged && |tagged[t]| > 0 ::
      seq(|tagged[t]|, i requires 0 <= i < |tagged[t]| =>
        TaggedRow(tagged[t][i].logLevel, tagged[t][i].timestamp, tagged[t][i].message))
  }

  /** A default-parameter type with no parameters writes no row. */
  function DefaultRowsOf(defaults: map<int, map<string, Value>>): map<int, map<string, Value>> {
    map t | t in defaults && |defaults[t]| > 0 :: defaults[t]
  }

  /** Each entry's lists written as numbered lists of numbered values. */
  function InfoMultipleRowsOf(info: map<string, InfoMultiple>): map<string, InfoMultipleRow> {
    map k | k in info :: InfoMultipleRow(info[k].typename, EnumerateNested(info[k].lists))
  }

  /** The field names of a list of field declarations. */
  function FieldNames(fd: seq<FieldData>): (r: set<string>)
    ensures forall j :: 0 <= j < |fd| ==> fd[j].fieldName in r
    decreases |fd|
  {
    if fd == [] then {} else FieldNames(fd[..|fd| - 1]) + {fd[|fd| - 1].fieldName}
  }

  /** The rows `save` writes for a log whose flags were encoded as `compat` and `incompat`. */
  function RecordOf(c: LogContents, digest: Digest, compat: string, incompat: string): LogRecord
    requires forall i :: 0 <= i < |c.dataList| ==> FieldsPresent(c.dataList[i])
  {
    LogRecord(
      c.fileVersion, c.startTimestamp, c.lastTimestamp, compat, incompat, c.syncCount, c.hasSync, digest,
      Enumerate(c.appendedOffsets),
      seq(|c.dataList|, i requires 0 <= i < |c.dataList| => DatasetRowOf(c.dataList[i])),
      c.dropouts,
      c.loggedMessages,
      TaggedRowsOf(c.loggedMessagesTagged),
      c.messageFormats,
      c.msgInfo,
      InfoMultipleRowsOf(c.msgInfoMultiple),
      c.initialParameters,
      DefaultRowsOf(c.defaultParameters),
      c.changedParameters)
  }

  // ---- load side: rows to contents ----

  /** Dataset key order: by name, then by multi id. */
  predicate KeyLe(aName: string, aMulti: int, bName: string, bMulti: int) {
    (TextLe(aName, bName) && aName != bName) || (aName == bName && aMulti <= bMulti)
  }

  /** `ORDER BY DatasetName, MultiId`. */
  function DatasetRowLe(a: DatasetRow, b: DatasetRow): bool {
    KeyLe(a.name, a.multiId, b.name, b.multiId)
  }

  lemma DatasetRowLeIsTotalPreorder()
    ensures TotalPreorder(DatasetRowLe)
  {
    forall a: DatasetRow, b: DatasetRow
      ensures DatasetRowLe(a, b) || DatasetRowLe(b, a)
    {
      TextLeTotal(a.name, b.name);
    }
    forall a: DatasetRow, b: DatasetRow, c: DatasetRow | DatasetRowLe(a, b) && DatasetRowLe(b, c)
      ensures DatasetRowLe(a, c)
    {
      if a.name != b.name && b.name != c.name {
        TextLeTransitive(a.name, b.name, c.name);
        if a.name == c.name {
          TextLeAntisymmetric(a.name, b.name);
        }
      }
    }
  }

  function SortDatasetRows(rows: seq<DatasetRow>): (r: seq<DatasetRow>)
    ensures SortedBy(r, DatasetRowLe)
    ensures multiset(r) == multiset(rows)
  {
    DatasetRowLeIsTotalPreorder();
    Sort(rows, DatasetRowLe)
  }

  /** The first stored dataset row with this name and multi id. */
  function FindDatasetRow(rows: seq<DatasetRow>, name: string, multiId: int): (r: Option<DatasetRow>)
    ensures r.Some? <==> exists i :: 0 <= i < |rows| && rows[i].name == name && rows[i].multiId == multiId
    ensures r.Some? ==> r.value in rows && r.value.name == name && r.value.multiId == multiId
    ensures forall i :: 0 <= i < |rows| && rows[i].name == name && rows[i].multiId == multiId
                        && (forall j :: 0 <= j < i ==> rows[j].name != name || rows[j].multiId != multiId)
                        ==> r == Some(rows[i])
    decreases |rows|
  {
    if rows == [] then None
    else if rows[0].name == name && rows[0].multiId == multiId then Some(rows[0])
    else
      var r := FindDatasetRow(rows[1..], name, multiId);
      assert forall i :: 1 <= i < |rows| ==> rows[i] == rows[1..][i - 1];
      r
  }

  function FieldDataOf(fields: seq<FieldRow>): seq<FieldData> {
    seq(|fields|, j requires 0 <= j < |fields| => FieldData(fields[j].topicName, fields[j].dataType))
  }

  /** The series by field name; a later row with the same name replaces an earlier one. */
  function DataOf(fields: seq<FieldRow>): (r: map<string, seq<int>>)
    decreases |fields|
  {
    if fields == [] then map[]
    else
      var last := fields[|fields| - 1];
      DataOf(fields[..|fields| - 1])[last.topicName := last.valueArray]
  }

  /** A dataset read from its row: with no fields and no series when lazy. */
  function ReadDataset(row: DatasetRow, lazy: bool): (ds: Dataset)
    ensures ds.name == row.name && ds.multiId == row.multiId
    ensures ds.msgId == row.msgId && ds.timestampIdx == row.timestampIdx
    ensures lazy ==> ds.fieldData == [] && ds.data == map[]
  {
    if lazy then Dataset(row.name, row.multiId, row.msgId, row.timestampIdx, [], map[])
    else Dataset(row.name, row.multiId, row.msgId, row.timestampIdx, FieldDataOf(row.fields), DataOf(row.fields))
  }

  /** The row `load` reads for a stored row: the first stored row with its name and multi id. */
  function RowToRead(rows: seq<DatasetRow>, row: DatasetRow): (r: DatasetRow)
    ensures r.name == row.name && r.multiId == row.multiId
    ensures row in rows ==> r in rows
  {
    match FindDatasetRow(rows, row.name, row.multiId)
    case Some(first) => first
    case None => row
  }

  /**
   The data list `load` builds: each stored row in name and multi-id order,
   read through the first row with its name and multi id.
   */
  function LoadDatasets(rows: seq<DatasetRow>, lazy: bool): (r: seq<Dataset>)
    ensures |r| == |rows|
    ensures forall i, j :: 0 <= i < j < |r| ==> KeyLe(r[i].name, r[i].multiId, r[j].name, r[j].multiId)
  {
    var sorted := SortDatasetRows(rows);
    assert |sorted| == |multiset(sorted)| == |multiset(rows)| == |rows|;
    var r := seq(|sorted|, i requires 0 <= i < |sorted| => ReadDataset(RowToRead(rows, sorted[i]), lazy));
    assert forall i, j :: 0 <= i < j < |r| ==> DatasetRowLe(sorted[i], sorted[j]);
    r
  }

  function Lookup<K, V>(m: map<K, V>, k: K, default: V): V {
    if k in m then m[k] else default
  }

  /** Loaded lists are appended to the lists already held under the same key. */
  function AppendPerKey<K, V>(held: map<K, seq<V>>, loaded: map<K, seq<V>>): (r: map<K, seq<V>>)
    ensures r.Keys == held.Keys + loaded.Keys
  {
    map k | k in held.Keys + loaded.Keys :: Lookup(held, k, []) + Lookup(loaded, k, [])
  }

  /** Loaded inner entries are merged into the inner maps already held. */
  function MergePerKey<K, L, V>(held: map<K, map<L, V>>, loaded: map<K, map<L, V>>): (r: map<K, map<L, V>>)
    ensures r.Keys == held.Keys + loaded.Keys
  {
    map k | k in held.Keys + loaded.Keys :: Lookup(held, k, map[]) + Lookup(loaded, k, map[])
  }

  /** Tagged rows read back as messages carrying the key they are filed under. */
  function TaggedOf(rows: map<int, seq<TaggedRow>>): map<int, seq<TaggedLogging>> {
    map t | t in rows ::
      seq(|rows[t]|, i requires 0 <= i < |rows[t]| =>
        TaggedLogging(rows[t][i].logLevel, t, rows[t][i].timestamp, rows[t][i].message))
  }

  /** Formats are read by joining with their fields, so a format without fields is not read. */
  function JoinedFormats(formats: map<string, seq<FormatField>>): map<string, seq<FormatField>> {
    map n | n in formats && |formats[n]| > 0 :: formats[n]
  }

  function InfoMultipleOf(rows: map<string, InfoMultipleRow>): map<string, InfoMultiple> {
    map k | k in rows :: InfoMultiple(rows[k].typename, Nested(rows[k].lists))
  }

  /** A stored log read on its own, as `load` reads it into a handle that holds nothing. */
  function ReadRecord(r: LogRecord, lazy: bool): LogContents {
    LogContents(
      r.fileVersion, r.startTimestamp, r.lastTimestamp,
      DecodeFlags(r.compatFlags), DecodeFlags(r.incompatFlags),
      r.syncCount, r.hasSync,
      Items(SortRows(r.appendedOffsets)),
      LoadDatasets(r.datasets, lazy),
      r.dropouts,
      r.loggedMessages,
      TaggedOf(r.loggedMessagesTagged),
      JoinedFormats(r.messageFormats),
      r.msgInfo,
      InfoMultipleOf(r.msgInfoMultiple),
      r.initialParameters,
      r.defaultParameters,
      r.changedParameters)
  }

  /**
   What a handle holding `held` holds after reading `read`: the scalars,
   flags and data list are replaced, the lists are appended to, and the
   dictionaries are updated.
   */
  function Absorb(held: LogContents, read: LogContents): LogContents {
    LogContents(
      read.fileVersion, read.startTimestamp, read.lastTimestamp,
      read.compatFlags, read.incompatFlags,
      read.syncCount, read.hasSync,
      held.appendedOffsets + read.appendedOffsets,
      read.dataList,
      held.dropouts + read.dropouts,
      held.loggedMessages + read.loggedMessages,
      AppendPerKey(held.loggedMessagesTagged, read.loggedMessagesTagged),
      AppendPerKey(held.messageFormats, read.messageFormats),
      held.msgInfo + read.msgInfo,
      held.msgInfoMultiple + read.msgInfoMultiple,
      held.initialParameters + read.initialParameters,
      MergePerKey(held.defaultParameters, read.defaultParameters),
      held.changedParameters + read.changedParameters)
  }

  /** What `load` leaves in a handle that held `held`. */
  function LoadInto(held: LogContents, r: LogRecord, lazy: bool): LogContents {
    Absorb(held, ReadRecord(r, lazy))
  }
}
