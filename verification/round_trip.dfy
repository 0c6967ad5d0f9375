/**
 Saving a log and loading it back: which parts of a log's contents come
 back exactly, in which order, and under which conditions.
 */
module RoundTrip {
  import opened Wrappers
  import opened SeriesOrder
  import opened FlagCodec
  import opened LogModel
  import opened LogStore

  /** The field names of a dataset are distinct and its series are exactly those fields. */
  predicate FieldsExact(ds: Dataset) {
    && (forall j, k :: 0 <= j < k < |ds.fieldData| ==> ds.fieldData[j].fieldName != ds.fieldData[k].fieldName)
    && ds.data.Keys == FieldNames(ds.fieldData)
  }

  /** Datasets strictly ascending by name and multi id: no later one is key-below an earlier one. */
  predicate OrderedByKey(dl: seq<Dataset>) {
    forall i, j :: 0 <= i < j < |dl| ==> !KeyLe(dl[j].name, dl[j].multiId, dl[i].name, dl[i].multiId)
  }

  /**
   Contents that come back unchanged from an eager load: datasets in key
   order with exact fields, no empty message list under a tag and each
   message filed under its own tag, no format without fields, and no
   default-parameter type without parameters.
   */
  predicate Reloadable(c: LogContents) {
    && OrderedByKey(c.dataList)
    && (forall i :: 0 <= i < |c.dataList| ==> FieldsExact(c.dataList[i]))
    && (forall t :: t in c.loggedMessagesTagged ==>
          |c.loggedMessagesTagged[t]| > 0 &&
          forall i :: 0 <= i < |c.loggedMessagesTagged[t]| ==> c.loggedMessagesTagged[t][i].tag == t)
    && (forall n :: n in c.messageFormats ==> |c.messageFormats[n]| > 0)
    && (forall t :: t in c.defaultParameters ==> |c.defaultParameters[t]| > 0)
  }

  /** Appended offsets are read back in the order they were written. */
  lemma OffsetsRoundTrip(offsets: seq<int>)
    ensures Items(SortRows(Enumerate(offsets))) == offsets
  {
    EnumerateRoundTrip(offsets, Enumerate(offsets));
  }

  /** The offsets read back do not depend on the order the offset rows are stored in. */
  lemma OffsetsReadInAnyOrder(held: LogContents, r: LogRecord, rows: seq<Indexed<int>>, offsets: seq<int>, lazy: bool)
    requires RowsOf(r.appendedOffsets, offsets)
    requires RowsOf(rows, offsets)
    ensures LoadInto(held, r.(appendedOffsets := rows), lazy).appendedOffsets == held.appendedOffsets + offsets
    ensures LoadInto(held, r, lazy).appendedOffsets == held.appendedOffsets + offsets
  {
    EnumerateRoundTrip(offsets, rows);
    EnumerateRoundTrip(offsets, r.appendedOffsets);
  }

  /** Each multi-value information entry comes back with its type name and the same list of lists. */
  lemma InfoMultipleRoundTrip(info: map<string, InfoMultiple>)
    ensures InfoMultipleOf(InfoMultipleRowsOf(info)) == info
  {
    var back := InfoMultipleOf(InfoMultipleRowsOf(info));
    forall k | k in info
      ensures back[k] == info[k]
    {
      EnumerateNestedRoundTrip(info[k].lists);
    }
  }

  /** Tagged messages come back when no tag has an empty list and every message carries its own tag. */
  lemma TaggedRoundTrip(tagged: map<int, seq<TaggedLogging>>)
    requires forall t :: t in tagged ==>
               |tagged[t]| > 0 && forall i :: 0 <= i < |tagged[t]| ==> tagged[t][i].tag == t
    ensures TaggedOf(TaggedRowsOf(tagged)) == tagged
  {
    var rows := TaggedRowsOf(tagged);
    var back := TaggedOf(rows);
    assert forall t :: t in tagged ==> t in rows;
    assert back.Keys == tagged.Keys;
    forall t | t in tagged
      ensures back[t] == tagged[t]
    {
      assert |back[t]| == |tagged[t]|;
      forall i | 0 <= i < |tagged[t]|
        ensures back[t][i] == tagged[t][i]
      {
      }
    }
  }

  /** A tag whose message list is empty is not there after a load. */
  lemma EmptyTagIsLost(tagged: map<int, seq<TaggedLogging>>, t: int)
    requires t in tagged && tagged[t] == []
    ensures t !in TaggedOf(TaggedRowsOf(tagged))
  {
  }

  /** A format without fields is not there after a load. */
  lemma EmptyFormatIsLost(formats: map<string, seq<FormatField>>, n: string)
    requires n in formats && formats[n] == []
    ensures n !in JoinedFormats(formats)
  {
  }

  /** A default-parameter type without parameters is not there after saving and loading into an empty handle. */
  lemma EmptyDefaultTypeIsLost(c: LogContents, digest: Digest, compat: string, incompat: string, t: int)
    requires forall i :: 0 <= i < |c.dataList| ==> FieldsPresent(c.dataList[i])
    requires t in c.defaultParameters && c.defaultParameters[t] == map[]
    ensures t !in LoadInto(EmptyContents, RecordOf(c, digest, compat, incompat), false).defaultParameters
  {
    MergeIntoNothing(DefaultRowsOf(c.defaultParameters));
  }

  /** A name among the field names is the name of some field. */
  lemma FieldNameIndex(fd: seq<FieldData>, k: string) returns (j: nat)
    requires k in FieldNames(fd)
    ensures j < |fd| && fd[j].fieldName == k
    decreases |fd|
  {
    var init := fd[..|fd| - 1];
    if k in FieldNames(init) {
      j := FieldNameIndex(init, k);
    } else {
      j := |fd| - 1;
    }
  }

  /**
   Reading the series of field rows with distinct names: the keys are the
   field names and each name maps to its own row's series.
   */
  lemma {:induction false} DataOfDistinct(fields: seq<FieldRow>)
    requires forall j, k :: 0 <= j < k < |fields| ==> fields[j].topicName != fields[k].topicName
    ensures DataOf(fields).Keys == FieldNames(FieldDataOf(fields))
    ensures forall j :: 0 <= j < |fields| ==>
              fields[j].topicName in DataOf(fields) && DataOf(fields)[fields[j].topicName] == fields[j].valueArray
    decreases |fields|
  {
    if fields != [] {
      var init := fields[..|fields| - 1];
      DataOfDistinct(init);
      var last := fields[|fields| - 1];
      assert FieldDataOf(fields)[..|fields| - 1] == FieldDataOf(init);
      forall j | 0 <= j < |fields|
        ensures fields[j].topicName in DataOf(fields) && DataOf(fields)[fields[j].topicName] == fields[j].valueArray
      {
        if j < |init| {
          assert init[j] == fields[j];
          assert fields[j].topicName != last.topicName;
        }
      }
    }
  }

  /** A dataset with exact fields comes back unchanged from an eager read of its row. */
  lemma DatasetRoundTrip(ds: Dataset)
    requires FieldsExact(ds)
    ensures FieldsPresent(ds)
    ensures ReadDataset(DatasetRowOf(ds), false) == ds
  {
    var rows := FieldRowsOf(ds);
    assert FieldDataOf(rows) == ds.fieldData;
    DataOfDistinct(rows);
    forall k | k in ds.data
      ensures DataOf(rows)[k] == ds.data[k]
    {
      var j := FieldNameIndex(ds.fieldData, k);
      assert rows[j].topicName == k;
    }
    assert DataOf(rows) == ds.data;
  }

  /** The stored rows of a data list. */
  function RowsOfDatasets(dl: seq<Dataset>): (rows: seq<DatasetRow>)
    requires forall i :: 0 <= i < |dl| ==> FieldsPresent(dl[i])
    ensures |rows| == |dl|
  {
    seq(|dl|, i requires 0 <= i < |dl| => DatasetRowOf(dl[i]))
  }

  /** Rows with distinct keys: the first row with a row's key is that row. */
  lemma FirstRowIsOwnRow(rows: seq<DatasetRow>, i: int)
    requires StrictlySortedBy(rows, DatasetRowLe)
    requires 0 <= i < |rows|
    ensures FindDatasetRow(rows, rows[i].name, rows[i].multiId) == Some(rows[i])
  {
    var r := FindDatasetRow(rows, rows[i].name, rows[i].multiId);
    var j :| 0 <= j < |rows| && rows[j] == r.value;
  }

  /** A data list in key order with exact fields comes back unchanged from an eager load. */
  lemma DatasetsRoundTrip(dl: seq<Dataset>)
    requires OrderedByKey(dl)
    requires forall i :: 0 <= i < |dl| ==> FieldsExact(dl[i])
    ensures forall i :: 0 <= i < |dl| ==> FieldsPresent(dl[i])
    ensures LoadDatasets(RowsOfDatasets(dl), false) == dl
  {
    forall i | 0 <= i < |dl| ensures FieldsPresent(dl[i]) && ReadDataset(DatasetRowOf(dl[i]), false) == dl[i] {
      DatasetRoundTrip(dl[i]);
    }
    var rows := RowsOfDatasets(dl);
    assert StrictlySortedBy(rows, DatasetRowLe);
    DatasetRowLeIsTotalPreorder();
    SortedUnique(SortDatasetRows(rows), rows, DatasetRowLe);
    var loaded := LoadDatasets(rows, false);
    forall i | 0 <= i < |dl|
      ensures loaded[i] == dl[i]
    {
      FirstRowIsOwnRow(rows, i);
    }
  }

  /** No two datasets share a name and multi id. */
  predicate DistinctKeys(dl: seq<Dataset>) {
    forall i, j :: 0 <= i < j < |dl| ==> dl[i].name != dl[j].name || dl[i].multiId != dl[j].multiId
  }

  /** Every row read eagerly, in the order given. */
  function ReadEach(rows: seq<DatasetRow>): (r: seq<Dataset>)
    ensures |r| == |rows|
  {
    seq(|rows|, i requires 0 <= i < |rows| => ReadDataset(rows[i], false))
  }

  lemma ReadEachAppend(a: seq<DatasetRow>, b: seq<DatasetRow>)
    ensures ReadEach(a + b) == ReadEach(a) + ReadEach(b)
  {
    assert forall i :: 0 <= i < |b| ==> (a + b)[|a| + i] == b[i];
  }

  /** Taking out the row at `j` takes one copy of it out of the multiset. */
  lemma RemoveAt(t: seq<DatasetRow>, j: nat)
    requires j < |t|
    ensures t == t[..j] + [t[j]] + t[j + 1..]
    ensures multiset(t[..j] + t[j + 1..]) == multiset(t) - multiset{t[j]}
  {
    assert t == t[..j] + [t[j]] + t[j + 1..];
  }

  /** Rearranging rows rearranges the datasets they read as. */
  lemma {:induction false} ReadEachPermutes(s: seq<DatasetRow>, t: seq<DatasetRow>)
    requires multiset(s) == multiset(t)
    ensures multiset(ReadEach(s)) == multiset(ReadEach(t))
    decreases |s|
  {
    if s == [] {
      assert |t| == |multiset(t)| == 0;
    } else {
      var n := |s| - 1;
      var x := s[n];
      assert s == s[..n] + [x];
      assert multiset(s[..n]) == multiset(s) - multiset{x};
      assert x in multiset(t);
      var j :| 0 <= j < |t| && t[j] == x;
      RemoveAt(t, j);
      var rest := t[..j] + t[j + 1..];
      ReadEachPermutes(s[..n], rest);
      var one := ReadEach([x]);
      ReadEachAppend(s[..n], [x]);
      ReadEachAppend(t[..j], [x]);
      ReadEachAppend(t[..j] + [x], t[j + 1..]);
      ReadEachAppend(t[..j], t[j + 1..]);
      assert multiset(ReadEach(s)) == multiset(ReadEach(s[..n])) + multiset(one);
      assert multiset(ReadEach(t)) == multiset(ReadEach(t[..j])) + multiset(one) + multiset(ReadEach(t[j + 1..]));
      assert multiset(ReadEach(rest)) == multiset(ReadEach(t[..j])) + multiset(ReadEach(t[j + 1..]));
      SameAddition(multiset(ReadEach(s)), multiset(ReadEach(s[..n])), multiset(ReadEach(t)),
                   multiset(ReadEach(rest)), multiset(ReadEach(t[..j])), multiset(ReadEach(t[j + 1..])), multiset(one));
    }
  }

  /** Adding the same element to equal multisets, in whatever place, gives equal multisets. */
  lemma SameAddition<T>(whole: multiset<T>, init: multiset<T>, other: multiset<T>, rest: multiset<T>,
                        before: multiset<T>, after: multiset<T>, one: multiset<T>)
    requires whole == init + one && other == before + one + after && rest == before + after && init == rest
    ensures whole == other
  {}

  /** Among rows with distinct keys, each row is the first with its key. */
  lemma OnlyRowWithKey(rows: seq<DatasetRow>, row: DatasetRow)
    requires forall i, j :: 0 <= i < j < |rows| ==> rows[i].name != rows[j].name || rows[i].multiId != rows[j].multiId
    requires row in rows
    ensures RowToRead(rows, row) == row
  {
    var i :| 0 <= i < |rows| && rows[i] == row;
    assert FindDatasetRow(rows, row.name, row.multiId) == Some(rows[i]);
  }

  /** Two keys each at or below the other are the same key. */
  lemma KeyLeAntisymmetric(a: Dataset, b: Dataset)
    requires KeyLe(a.name, a.multiId, b.name, b.multiId) && KeyLe(b.name, b.multiId, a.name, a.multiId)
    ensures a.name == b.name && a.multiId == b.multiId
  {
    if a.name != b.name {
      TextLeAntisymmetric(a.name, b.name);
    }
  }

  /** Distinct keys in ascending order are strictly ascending. */
  lemma AscendingDistinctIsOrdered(dl: seq<Dataset>)
    requires DistinctKeys(dl)
    requires forall i, j :: 0 <= i < j < |dl| ==> KeyLe(dl[i].name, dl[i].multiId, dl[j].name, dl[j].multiId)
    ensures OrderedByKey(dl)
  {
    forall i, j | 0 <= i < j < |dl|
      ensures !KeyLe(dl[j].name, dl[j].multiId, dl[i].name, dl[i].multiId)
    {
      if KeyLe(dl[j].name, dl[j].multiId, dl[i].name, dl[i].multiId) {
        KeyLeAntisymmetric(dl[i], dl[j]);
      }
    }
  }

  /** The stored rows of a data list with exact fields read back eagerly, in order, as the data list. */
  lemma RowsReadBack(dl: seq<Dataset>)
    requires forall i :: 0 <= i < |dl| ==> FieldsExact(dl[i])
    ensures forall i :: 0 <= i < |dl| ==> FieldsPresent(dl[i])
    ensures ReadEach(RowsOfDatasets(dl)) == dl
  {
    forall i | 0 <= i < |dl| ensures FieldsPresent(dl[i]) && ReadDataset(DatasetRowOf(dl[i]), false) == dl[i] {
      DatasetRoundTrip(dl[i]);
    }
  }

  /** With distinct keys, an eager load reads each row of the sorted arrangement as itself. */
  lemma LoadReadsSortedRows(rows: seq<DatasetRow>)
    requires forall i, j :: 0 <= i < j < |rows| ==> rows[i].name != rows[j].name || rows[i].multiId != rows[j].multiId
    ensures LoadDatasets(rows, false) == ReadEach(SortDatasetRows(rows))
  {
    var sorted := SortDatasetRows(rows);
    var loaded := LoadDatasets(rows, false);
    forall i | 0 <= i < |sorted|
      ensures loaded[i] == ReadDataset(sorted[i], false)
    {
      assert sorted[i] in multiset(rows);
      OnlyRowWithKey(rows, sorted[i]);
    }
  }

  /**
   A data list with exact fields and distinct keys, saved in any order,
   loads eagerly as the same datasets rearranged in key order: it comes
   back unchanged exactly when it was saved in key order.
   */
  lemma DatasetsComeBackSorted(dl: seq<Dataset>)
    requires forall i :: 0 <= i < |dl| ==> FieldsExact(dl[i])
    requires DistinctKeys(dl)
    ensures forall i :: 0 <= i < |dl| ==> FieldsPresent(dl[i])
    ensures var loaded := LoadDatasets(RowsOfDatasets(dl), false);
            && multiset(loaded) == multiset(dl)
            && (loaded == dl <==> OrderedByKey(dl))
  {
    RowsReadBack(dl);
    var rows := RowsOfDatasets(dl);
    LoadReadsSortedRows(rows);
    ReadEachPermutes(SortDatasetRows(rows), rows);
    if OrderedByKey(dl) {
      DatasetsRoundTrip(dl);
    }
    if LoadDatasets(rows, false) == dl {
      AscendingDistinctIsOrdered(dl);
    }
  }

  lemma AppendToNothing<K, V>(loaded: map<K, seq<V>>)
    ensures AppendPerKey(map[], loaded) == loaded
  {
    var r := AppendPerKey(map[], loaded);
    forall k | k in loaded
      ensures r[k] == loaded[k]
    {
      assert r[k] == [] + loaded[k];
    }
    assert r.Keys == loaded.Keys;
  }

  /** Under every key, the appended map holds the held list followed by the loaded one. */
  lemma AppendPerKeyLookup<K, V>(held: map<K, seq<V>>, loaded: map<K, seq<V>>, k: K)
    ensures Lookup(AppendPerKey(held, loaded), k, []) == Lookup(held, k, []) + Lookup(loaded, k, [])
  {
    if k !in held && k !in loaded {
      assert Lookup(held, k, []) + Lookup(loaded, k, []) == [];
    }
  }

  lemma MergeIntoNothing<K, L, V>(loaded: map<K, map<L, V>>)
    ensures MergePerKey(map[], loaded) == loaded
  {
    var r := MergePerKey(map[], loaded);
    forall k | k in loaded
      ensures r[k] == loaded[k]
    {
      assert r[k] == map[] + loaded[k];
    }
    assert r.Keys == loaded.Keys;
  }

  /** A handle that holds nothing holds exactly what it reads. */
  lemma AbsorbIntoEmpty(read: LogContents)
    ensures Absorb(EmptyContents, read) == read
  {
    AppendToNothing(read.loggedMessagesTagged);
    AppendToNothing(read.messageFormats);
    MergeIntoNothing(read.defaultParameters);
    var a := Absorb(EmptyContents, read);
    assert a.appendedOffsets == read.appendedOffsets;
    assert a.dropouts == read.dropouts;
    assert a.loggedMessages == read.loggedMessages;
    assert a.changedParameters == read.changedParameters;
    assert a.msgInfo == read.msgInfo;
    assert a.msgInfoMultiple == read.msgInfoMultiple;
    assert a.initialParameters == read.initialParameters;
  }

  /** The stored data list, flags and offsets read back as saved. */
  lemma ReadBackOrdered(c: LogContents, digest: Digest, compat: string, incompat: string)
    requires Reloadable(c)
    requires EncodeFlags(c.compatFlags) == Some(compat) && EncodeFlags(c.incompatFlags) == Some(incompat)
    ensures forall i :: 0 <= i < |c.dataList| ==> FieldsPresent(c.dataList[i])
    ensures var back := ReadRecord(RecordOf(c, digest, compat, incompat), false);
            && back.dataList == c.dataList
            && back.compatFlags == c.compatFlags && back.incompatFlags == c.incompatFlags
            && back.appendedOffsets == c.appendedOffsets
  {
    DatasetsRoundTrip(c.dataList);
    assert RecordOf(c, digest, compat, incompat).datasets == RowsOfDatasets(c.dataList);
    DecodeEncode(c.compatFlags);
    DecodeEncode(c.incompatFlags);
    OffsetsRoundTrip(c.appendedOffsets);
  }

  /** The stored dictionaries read back as saved. */
  lemma ReadBackKeyed(c: LogContents, digest: Digest, compat: string, incompat: string)
    requires Reloadable(c)
    requires forall i :: 0 <= i < |c.dataList| ==> FieldsPresent(c.dataList[i])
    ensures var back := ReadRecord(RecordOf(c, digest, compat, incompat), false);
            && back.loggedMessagesTagged == c.loggedMessagesTagged
            && back.messageFormats == c.messageFormats
            && back.msgInfoMultiple == c.msgInfoMultiple
            && back.defaultParameters == c.defaultParameters
  {
    TaggedRoundTrip(c.loggedMessagesTagged);
    InfoMultipleRoundTrip(c.msgInfoMultiple);
    FormatsWithFieldsKept(c.messageFormats);
    DefaultsWithParametersKept(c.defaultParameters);
  }

  lemma FormatsWithFieldsKept(formats: map<string, seq<FormatField>>)
    requires forall n :: n in formats ==> |formats[n]| > 0
    ensures JoinedFormats(formats) == formats
  {
    assert JoinedFormats(formats).Keys == formats.Keys;
  }

  lemma DefaultsWithParametersKept(defaults: map<int, map<string, Value>>)
    requires forall t :: t in defaults ==> |defaults[t]| > 0
    ensures DefaultRowsOf(defaults) == defaults
  {
    var kept := DefaultRowsOf(defaults);
    forall t | t in defaults
      ensures t in kept && kept[t] == defaults[t]
    {
      assert |defaults[t]| > 0;
    }
    assert kept.Keys == defaults.Keys;
  }

  /** Reading what `save` stored gives reloadable contents back exactly. */
  lemma ReadWhatWasStored(c: LogContents, digest: Digest, compat: string, incompat: string)
    requires Reloadable(c)
    requires EncodeFlags(c.compatFlags) == Some(compat) && EncodeFlags(c.incompatFlags) == Some(incompat)
    ensures forall i :: 0 <= i < |c.dataList| ==> FieldsPresent(c.dataList[i])
    ensures ReadRecord(RecordOf(c, digest, compat, incompat), false) == c
  {
    ReadBackOrdered(c, digest, compat, incompat);
    ReadBackKeyed(c, digest, compat, incompat);
    SameFields(ReadRecord(RecordOf(c, digest, compat, incompat), false), c);
  }

  /**
   An eager load of what `save` stored, into a handle that holds nothing,
   gives reloadable contents back exactly.
   */
  lemma SaveThenLoad(c: LogContents, digest: Digest, compat: string, incompat: string)
    requires Reloadable(c)
    requires EncodeFlags(c.compatFlags) == Some(compat) && EncodeFlags(c.incompatFlags) == Some(incompat)
    ensures forall i :: 0 <= i < |c.dataList| ==> FieldsPresent(c.dataList[i])
    ensures LoadInto(EmptyContents, RecordOf(c, digest, compat, incompat), false) == c
  {
    ReadWhatWasStored(c, digest, compat, incompat);
    AbsorbIntoEmpty(c);
  }

  /** Contents with the same fields are the same contents. */
  lemma SameFields(a: LogContents, b: LogContents)
    requires a.fileVersion == b.fileVersion && a.startTimestamp == b.startTimestamp && a.lastTimestamp == b.lastTimestamp
    requires a.compatFlags == b.compatFlags && a.incompatFlags == b.incompatFlags
    requires a.syncCount == b.syncCount && a.hasSync == b.hasSync
    requires a.appendedOffsets == b.appendedOffsets && a.dataList == b.dataList
    requires a.dropouts == b.dropouts && a.loggedMessages == b.loggedMessages
    requires a.loggedMessagesTagged == b.loggedMessagesTagged && a.messageFormats == b.messageFormats
    requires a.msgInfo == b.msgInfo && a.msgInfoMultiple == b.msgInfoMultiple
    requires a.initialParameters == b.initialParameters && a.defaultParameters == b.defaultParameters
    requires a.changedParameters == b.changedParameters
    ensures a == b
  {
  }

  /**
   Loading the same log a second time appends its lists again: the appended
   offsets, dropouts, logged messages and changed parameters, the messages
   under every tag, and the fields under every format name.
   */
  lemma LoadTwiceRepeatsLists(s: Store, h: Handle, lazy: bool)
    requires ExistsInDb(s, h.pk)
    ensures Load(s, h, lazy).Ok? && Load(s, Load(s, h, lazy).value, lazy).Ok?
    ensures var stored := s.logs[h.pk.value];
            var twice := Load(s, Load(s, h, lazy).value, lazy).value.contents;
            && twice.appendedOffsets == h.contents.appendedOffsets + Items(SortRows(stored.appendedOffsets)) + Items(SortRows(stored.appendedOffsets))
            && twice.dropouts == h.contents.dropouts + stored.dropouts + stored.dropouts
            && twice.loggedMessages == h.contents.loggedMessages + stored.loggedMessages + stored.loggedMessages
            && twice.changedParameters == h.contents.changedParameters + stored.changedParameters + stored.changedParameters
    ensures var stored := s.logs[h.pk.value];
            var twice := Load(s, Load(s, h, lazy).value, lazy).value.contents;
            forall tag :: Lookup(twice.loggedMessagesTagged, tag, [])
                          == Lookup(h.contents.loggedMessagesTagged, tag, [])
                             + Lookup(TaggedOf(stored.loggedMessagesTagged), tag, [])
                             + Lookup(TaggedOf(stored.loggedMessagesTagged), tag, [])
    ensures var stored := s.logs[h.pk.value];
            var twice := Load(s, Load(s, h, lazy).value, lazy).value.contents;
            forall name :: Lookup(twice.messageFormats, name, [])
                           == Lookup(h.contents.messageFormats, name, [])
                              + Lookup(JoinedFormats(stored.messageFormats), name, [])
                              + Lookup(JoinedFormats(stored.messageFormats), name, [])
  {
    var read := ReadRecord(s.logs[h.pk.value], lazy);
    var once := Load(s, h, lazy).value.contents;
    var twice := Load(s, Load(s, h, lazy).value, lazy).value.contents;
    forall tag
      ensures Lookup(twice.loggedMessagesTagged, tag, [])
              == Lookup(h.contents.loggedMessagesTagged, tag, []) + Lookup(read.loggedMessagesTagged, tag, []) + Lookup(read.loggedMessagesTagged, tag, [])
    {
      AppendPerKeyLookup(h.contents.loggedMessagesTagged, read.loggedMessagesTagged, tag);
      AppendPerKeyLookup(once.loggedMessagesTagged, read.loggedMessagesTagged, tag);
    }
    forall name
      ensures Lookup(twice.messageFormats, name, [])
              == Lookup(h.contents.messageFormats, name, []) + Lookup(read.messageFormats, name, []) + Lookup(read.messageFormats, name, [])
    {
      AppendPerKeyLookup(h.contents.messageFormats, read.messageFormats, name);
      AppendPerKeyLookup(once.messageFormats, read.messageFormats, name);
    }
  }
}
