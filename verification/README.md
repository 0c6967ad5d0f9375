# pyulog byte scanners and database log store, in Dafny

This project models two parts of pyulog, the Python library for PX4 ULog
flight logs, and proves properties of the model.

**The raw byte scanners of `pyulog/utils.py`.** These decide whether a
vehicle was armed without decoding the whole log. A log file is a `seq<byte>`.
- `find_field_offset` sums field sizes up to a named field. The model is
  `Formats.FindFieldOffset`.
- `get_subscription_id` walks the `<size:u16><type:u8>` message stream from
  the end of the header to the 'A' message that names a topic. The model is
  `Subscription.SubscriptionId`.
- `reverse_search_for_arm` jumps backwards from sync marker to sync marker
  (`rfind`). It scans each segment forward for 'D' messages of the
  vehicle_status id and reads their arming byte. The model is
  `ArmSearch.ReverseSearchForArm`, as written: a skip past the end of the
  file raises. `ArmSearch.ReverseSearchForArmCorrected` ends the segment
  there instead (see "## Findings").
- `check_if_log_was_armed` clamps the search limit and chains the three.
  The model is `ArmSearch.CheckIfLogWasArmed`. It calls the search as
  written. Its limit defaults to `ArmSearch.MaxSearchLength`, 200000 bytes.

Each walk is a pure function with a `decreases` measure:
- the forward walks advance by `size + 3` bytes per message;
- the outer reverse loop's `offset` strictly decreases.

The module `Stream` gives an independent reference: the byte encoding of a
list of messages. The verdict lemmas of `ArmVerdict` and
`Subscription.SubscriptionIdOfLog` state what each scanner returns on a file
laid out that way.

The module `ArmSegments` lays a log out as a header and then segments of
messages, with a sync marker message between consecutive segments. The
marker bytes occur nowhere else. Every message is well framed
(`ArmVerdict.WellFramed`): its payload holds at least the two id bytes, and
a status message is long enough to hold the arming byte. On such a log,
with any number of segments, `ArmSegments.LatestStatusSegmentDecides` gives
the search's answer:
- the verdict of the last segment that holds a status message;
- the "no vehicle_status" error when no segment holds one.

The search as written and the corrected one agree there. A status message
too short for the arming byte makes the inner loop raise `IndexError`
(`utils.py:105`) when the search reaches it; `ArmVerdict.ShortStatusRaises`
states this, and `ArmVerdict.ShortStatusExample` shows it on a 5-byte log.

**The write-once log store of `pyulog/db.py`.** `DatabaseULog` is modelled as
a state machine over an abstract store.
- A `LogModel.Store` has a schema version, a map from log keys to stored
  records, and the next key to hand out.
- A `LogModel.Handle` holds:
  - the key, if any;
  - the flag that says whether the last load was lazy;
  - the SHA-256 digest;
  - the log contents (`LogModel.LogContents`): the data list, the message
    lists, and the dictionaries of a ULog.
- Each table is a field of the stored `LogModel.LogRecord`. Deleting the
  record deletes its child rows with it, as the cascade does.
- Every operation is a pure function that returns the new store, the new
  handle, and a `Result`. The modelled operations are:
  - the constructor gates (`LogStore.Open`);
  - `load` (`LogStore.Load`, built on `LogModel.LoadInto`);
  - `get_dataset` with its cache (`LogStore.GetDataset`);
  - `save` (`LogStore.Save`, as written: the key is recorded before the
    dataset rows are inserted; `LogStore.SaveCorrected` records it only
    once every row is written, see "## Findings");
  - `delete` (`LogStore.Delete`);
  - `write_ulog`'s guard (`LogStore.WriteULog`);
  - `exists_in_db` and `primary_key_from_sha256sum`.

Ordering:
- `ORDER BY SeriesIndex` is a sort by the index `enumerate` wrote
  (`SeriesOrder`).
- `ORDER BY DatasetName, MultiId` is a sort by name and then multi id.

The main round trip is `RoundTrip.SaveThenLoad`. Contents satisfying
`RoundTrip.Reloadable` come back exactly from an eager load of what `save`
stored. `StoreProperties.SaveThenOpen` lifts this to the handle a key opens.

Where the model follows the code rather than the documented behaviour:
- A lazy `get_dataset` returns empty `field_data` as well as empty `data`.
  The field declarations are read only on an eager fetch (`db.py:458-467`).
- `delete` does not check that the key exists. A key with no log deletes
  nothing, and the handle still forgets its key.
- The schema version is checked only when a handle is constructed.
- `load` appends to the lists the handle already holds, so a second load
  repeats them: the offsets, dropouts, logged messages and changed
  parameters, the messages under each tag, and the fields of each format
  (`RoundTrip.LoadTwiceRepeatsLists`).
- A handle constructed from a file with the default `lazy=True` refuses
  `write_ulog`, since the flag is set before any load.
- `calc_sha256sum` hashes an open stream from its current position, without
  rewinding. The digest is a function parameter here.

What a round trip loses, as the code is written:
- an empty message list under a tag (`RoundTrip.EmptyTagIsLost`);
- a message format with no fields (`RoundTrip.EmptyFormatIsLost`);
- a default-parameter type with no parameters
  (`RoundTrip.EmptyDefaultTypeIsLost`);
- datasets out of name order come back sorted
  (`RoundTrip.DatasetsComeBackSorted`);
- of two datasets with the same name and multi id, both entries are read
  through the first stored row (`DatasetCache.LoadedEntryRow`).

## Model

| member | source | states |
|---|---|---|
| Formats.FindFieldOffsetOutcome | pyulog/utils.py:17-33 | at the first named field that is the target or has an unknown type, the result is the summed span of the fields before it, or the unknown-type error; "not found" when no field stops the walk |
| Formats.OffsetOfTarget | pyulog/utils.py:19-29 | the offset of a target is the sum of size times multiplicity (array length, 1 when 0) over the named fields before its first occurrence |
| Formats.BlankFieldAddsNothing | pyulog/utils.py:20-22 | inserting a blank-named field anywhere leaves the result unchanged |
| Formats.BlankTargetNeverFound | pyulog/utils.py:21-33 | a blank target is never matched; with every type known the result is "not found" |
| Formats.UnknownTypeBeforeTarget | pyulog/utils.py:23-31 | an unknown-type error names the type of a named field that comes before any field named as the target |
| Formats.NothingAfterTargetMatters | pyulog/utils.py:23-31 | the target's own type and all fields after it can be replaced without changing the result |
| Subscription.ScanFromSound | pyulog/utils.py:48-68 | an id the walk returns comes from a complete 'A' message at or after the start, before the limit, whose payload from byte 3 is the name |
| Subscription.SubscriptionIdSound | pyulog/utils.py:44-70 | the same, with the walk starting at the end of the header |
| Subscription.SubscriptionIdOfLog | pyulog/utils.py:46-70 | on a header followed by encoded messages: the id of the first 'A' message naming the topic before the limit, the error of a short 'A' message, or "not found" |
| Subscription.LimitBeyondFileIsFileLength | pyulog/utils.py:48-57 | a limit at or beyond the file length gives the same result as the file length |
| ArmSearch.RFind | pyulog/utils.py:84-88 | the result is -1 or a marker position whose marker ends within the bound, and no later position has a marker there |
| ArmSearch.RFindOnlyMarker | pyulog/utils.py:84-88 | with a single marker, it is found exactly when it ends within the bound |
| ArmSearch.ReadStepSound | pyulog/utils.py:93-110 | a step says "armed" or "disarmed" only from a complete status message whose arming byte says so |
| ArmSearch.ScanSegmentSound | pyulog/utils.py:92-110 | a segment's true comes from a status message with a nonzero arming byte, false from one with a zero byte, and no verdict only when none was recorded |
| ArmSearch.SearchBackSound | pyulog/utils.py:79-122 | the search returns true only if some status message has a nonzero arming byte, and false only if some status message has a zero one |
| ArmSearch.DefaultSearchLimit | pyulog/utils.py:125-148 | with no limit given, the limit is `MAX_SEARCH_LENGTH`, 200000 bytes: a file no longer than that is checked as with no limit, and a longer one gets a verdict only from a vehicle_status subscription starting before byte 200000 |
| ArmSearch.SearchLimitClamps | pyulog/utils.py:145-148 | clamping the limit to the file length, or using the length when none is given, changes no subscription result |
| ArmSearch.CheckIfLogWasArmedSound | pyulog/utils.py:125-153 | a true verdict means the format is known, vehicle_status is subscribed before the limit, the field is found, and a status message with that id has a nonzero byte at its offset |
| ArmVerdict.ScanOverSegment | pyulog/utils.py:92-110 | on a segment of encoded messages the inner loop yields the reference verdict of the status messages before the bound, merged with the one recorded before |
| ArmVerdict.ArmVerdictWithoutSync | pyulog/utils.py:79-122 | a well-framed log (status messages long enough for the arming byte) with no marker returns armed if any status message says armed, disarmed if there are status messages and none says armed, and the error if there are none |
| ArmVerdict.LatestSegmentDecides | pyulog/utils.py:83-117 | on a well-framed log with one marker, the segment after it decides; the one before decides only when the later one has no status message |
| ArmSegments.RFindInLayout | pyulog/utils.py:83-90 | on a segmented log, the marker search from where the loop stands before segment k finds the marker after segment k - 1, and none before the first segment |
| ArmSegments.SegmentScan | pyulog/utils.py:92-110 | the inner loop over each segment, up to the marker bytes after it or to the end of the file, yields that segment's reference verdict under either seek rule |
| ArmSegments.LayoutLink | pyulog/utils.py:83-117 | the loop standing at segment k finds the marker ending segment k - 1, scans from after it, and reaches the segment's verdict |
| ArmSegments.SearchAlongPasses | pyulog/utils.py:83-122 | over outer iterations linked marker to marker, the search from iteration k answers with the last verdict among iterations 0 to k, or the "no vehicle_status" error when none has one |
| ArmSegments.LatestOfLast | pyulog/utils.py:112-115 | the verdicts folded in file order give verdict k when every later segment has none |
| ArmSegments.LatestOfNone | pyulog/utils.py:119-120 | with no verdict in any segment the fold has none |
| ArmSegments.LatestStatusSegmentDecides | pyulog/utils.py:79-122 | on a log of any number of segments of well-framed messages separated by markers, the search answers with the last segment holding a status message (true exactly when one of its arming bytes is nonzero), the "no vehicle_status" error when none does, and the corrected search answers alike |
| ArmVerdict.CorrectedNeverSeekFails | pyulog/utils.py:83-117 | the corrected search never fails with a seek out of range |
| ArmVerdict.SearchRulesAgree | pyulog/utils.py:83-117 | where the search as written does not raise on a seek, it answers as the corrected search |
| ArmVerdict.AsWrittenDiffersOnlyBySeekError | pyulog/utils.py:97-99 | the corrected search never raises on a seek, and wherever the one as written does not raise, both answer alike |
| ArmVerdict.ShortStatusRaises | pyulog/utils.py:100-105 | a complete status message too short to hold the arming byte makes the inner loop raise `IndexError`, whatever it recorded before |
| ArmVerdict.ShortStatusExample | pyulog/utils.py:79-105 | on a 5-byte log holding one status message with nothing after its id, both searches raise `IndexError` |
| ArmVerdict.TruncatedTailCounterexample | pyulog/utils.py:97-99 | on an 11-byte log whose last message is cut short, the search as written raises where the corrected one answers "not armed" |
| FlagCodec.EncodeFlags | pyulog/db.py:523-524 | the flags are encodable exactly when every flag is a code point outside the surrogates, and the text has one character per flag |
| FlagCodec.DecodeEncode | pyulog/db.py:523-524 | decoding the encoded flags gives the flags back |
| FlagCodec.EncodeDecode | pyulog/db.py:243-244 | every stored text is the encoding of the flags it decodes to |
| SeriesOrder.Sort | pyulog/db.py:250-256 | the result is ordered by the comparator and is a permutation of the input |
| SeriesOrder.SortedUnique | pyulog/db.py:262-268 | a strictly ordered sequence is the only ordered permutation of itself |
| SeriesOrder.EnumerateRoundTrip | pyulog/db.py:533-542 | rows holding the enumerated list, stored in any order, come back as the list when sorted by their index |
| SeriesOrder.NestedRoundTrip | pyulog/db.py:357-378 | a list of lists stored as indexed rows of indexed elements, in any order, comes back as the same list of lists |
| SeriesOrder.EnumerateNestedRoundTrip | pyulog/db.py:675-688 | enumerating each inner list and the outer list, then reading back, gives the list of lists |
| SeriesOrder.TextLeTotal | pyulog/db.py:262-268 | the name order used to sort datasets compares any two names |
| SeriesOrder.TextLeTransitive | pyulog/db.py:262-268 | the name order is transitive |
| SeriesOrder.TextLeAntisymmetric | pyulog/db.py:262-268 | two names each below the other are equal |
| LogModel.DatasetRowLeIsTotalPreorder | pyulog/db.py:262-268 | the (name, multi id) order of dataset rows is a total preorder |
| LogModel.FindDatasetRow | pyulog/db.py:446-455 | a row is found exactly when some stored row has the name and multi id, and it is the first such row |
| LogModel.RowToRead | pyulog/db.py:269-274 | the row read for a stored row has its name and multi id, and is itself stored |
| LogModel.ReadDataset | pyulog/db.py:456-467 | the dataset read keeps the row's name, multi id, message id and timestamp index, and a lazy read has no fields and no series |
| LogModel.LoadDatasets | pyulog/db.py:260-274 | a load reads one dataset per stored row, in ascending name and multi-id order |
| LogStore.PrimaryKeyFromDigest | pyulog/db.py:90-107 | a key found names a stored log with the digest; none found means no stored log has it |
| LogStore.Load | pyulog/db.py:208-221 | the load succeeds exactly when the key names a stored log, raises the not-found error otherwise, and takes the stored digest and the lazy flag |
| LogStore.Open | pyulog/db.py:156-181 | an old schema raises first; then both or neither of key and file raise; a file gives its parse and digest; a key opens exactly when it is stored |
| LogStore.WriteULog | pyulog/db.py:192-195 | writing succeeds exactly when the handle was not loaded lazily, and writes its contents |
| LogStore.GetDataset | pyulog/db.py:412-489 | only the data list of the handle can change and it never grows; outside a cache hit the fetch succeeds exactly when a stored row matches; a failure is the not-found error |
| LogStore.SaveUnder | pyulog/db.py:491-530 | a stored handle is refused and nothing changes; a stored digest is adopted and refused; a success adds exactly the next key and keeps every other log; a failure under the corrected rule leaves the key alone |
| LogStore.Save | pyulog/db.py:502-530 | as written: a failed save leaves the store alone; it changes the handle's key only to adopt a stored digest's key, or, on a field without a series, to the next key, which no log has (the JSON text is taken as accepted; see "## Left out") |
| LogStore.SaveCorrected | pyulog/db.py:502-530 | with the key recorded only once every row is written: a failed save leaves the store alone, and changes the handle's key only to adopt a stored digest's key |
| LogStore.Delete | pyulog/db.py:731-746 | a handle without a key is refused; otherwise exactly that key's log is removed, every other log is kept, and the handle forgets its key |
| RoundTrip.OffsetsRoundTrip | pyulog/db.py:533-542 | the appended offsets come back in the order they were written |
| RoundTrip.OffsetsReadInAnyOrder | pyulog/db.py:249-258 | the offsets loaded do not depend on the order of the stored rows, and are appended to those held |
| RoundTrip.InfoMultipleRoundTrip | pyulog/db.py:662-688 | each multi-value information entry comes back with its type name and the same list of lists |
| RoundTrip.TaggedRoundTrip | pyulog/db.py:618-631 | tagged messages come back when every tag has messages and each message carries its own tag |
| RoundTrip.EmptyTagIsLost | pyulog/db.py:306-322 | a tag with an empty message list is not there after a load |
| RoundTrip.EmptyFormatIsLost | pyulog/db.py:324-344 | a format without fields is not there after a load |
| RoundTrip.EmptyDefaultTypeIsLost | pyulog/db.py:389-398 | a default-parameter type with no parameters is not there after saving and loading into an empty handle |
| RoundTrip.DataOfDistinct | pyulog/db.py:458-467 | for field rows with distinct names, the series read are keyed by exactly those names, each with its own row's values |
| RoundTrip.DatasetRoundTrip | pyulog/db.py:544-591 | a dataset whose series are exactly its distinct fields comes back unchanged from an eager read of its row |
| RoundTrip.DatasetsRoundTrip | pyulog/db.py:260-274 | a data list in key order, with exact fields, comes back unchanged from an eager load |
| RoundTrip.ReadEachPermutes | pyulog/db.py:260-274 | rows that are a rearrangement of each other read as datasets that are a rearrangement of each other |
| RoundTrip.LoadReadsSortedRows | pyulog/db.py:260-274 | with distinct keys, the eager load reads each stored row, taken in key order, as itself |
| RoundTrip.DatasetsComeBackSorted | pyulog/db.py:260-274 | a data list with exact fields and distinct keys loads eagerly as the same datasets in key order, and unchanged exactly when it was saved in key order |
| RoundTrip.ReadWhatWasStored | pyulog/db.py:226-408 | reading the record `save` stored gives reloadable contents back exactly |
| RoundTrip.SaveThenLoad | pyulog/db.py:491-729 | an eager load into an empty handle of what `save` stored gives reloadable contents back exactly |
| RoundTrip.LoadTwiceRepeatsLists | pyulog/db.py:249-344 | loading twice appends twice the offsets, dropouts, logged messages and changed parameters, the messages under every tag, and the fields under every format name |
| StoreProperties.SavePreservesValid | pyulog/db.py:505-530 | under either key rule, saving keeps keys below the next key and digests unique |
| StoreProperties.DeletePreservesValid | pyulog/db.py:731-746 | deleting keeps keys below the next key and digests unique |
| StoreProperties.SaveSucceedsIff | pyulog/db.py:502-530 | a save of an unstored handle succeeds exactly when no stored log has its digest, its flags are storable, and its fields have series (the JSON text is taken as accepted; see "## Left out") |
| StoreProperties.SaveAdoptsStoredDigest | pyulog/db.py:505-508 | saving a log whose digest is stored under a key adopts that key, raises, and changes nothing in the store |
| StoreProperties.SaveIsWriteOnce | pyulog/db.py:502-503 | a handle that saved is refused on a second save, and nothing changes |
| StoreProperties.SaveStoresRecord | pyulog/db.py:514-530 | a successful save stores the log's record under the next key and gives the handle that key |
| StoreProperties.SaveRulesDifferOnlyInDanglingKey | pyulog/db.py:514-561 | the save as written and the corrected one store the same and answer the same, and differ only in the key a save failing on a field without a series leaves in the handle |
| StoreProperties.SavedKeyNamesStoredLog | pyulog/db.py:530 | after the corrected save, a key in a handle that had none names a stored log |
| StoreProperties.AsWrittenSaveLeavesDanglingKey | pyulog/db.py:530-557 | as written, a save failing on a field without a series rolls back the store but leaves the next key, which no log has, in the handle |
| StoreProperties.DanglingKeyDeletesNextLog | pyulog/db.py:530-746 | the next successful save by another handle gets that key, and deleting through the failed handle removes that other log |
| StoreProperties.DanglingKeyExample | pyulog/db.py:554-557 | on an empty store, a dataset declaring a field it has no series for leaves the first key, 1, dangling as written, and no key in the corrected save |
| StoreProperties.OpenStoredLog | pyulog/db.py:178-181 | opening a stored key loads its record into an empty handle |
| StoreProperties.SaveThenOpen | pyulog/db.py:172-181 | for `RoundTrip.Reloadable` contents, a saved log opened eagerly by its key is the saved handle, and it writes out the saved contents |
| StoreProperties.SaveThenOpenLazily | pyulog/db.py:192-194 | for `RoundTrip.Reloadable` contents, a saved log opened lazily has the saved contents with datasets stripped of fields and series, and refuses to be written |
| StoreProperties.LazyDatasetsRoundTrip | pyulog/db.py:260-274 | for a data list in key order with exact fields, a lazy load of it gives the same datasets without fields or series |
| StoreProperties.LazyLoadBlanksOnlyDatasets | pyulog/db.py:268-274 | a lazy load differs from an eager one only in the data list |
| StoreProperties.DeleteThenLoadFails | pyulog/db.py:220-221 | after a delete no handle can load the deleted key |
| StoreProperties.DeleteThenSaveAgain | pyulog/db.py:735-746 | after deleting its own log, a handle saves again exactly when its flags are storable and its fields have series (the JSON text is taken as accepted; see "## Left out") |
| DatasetCache.CacheHitIgnoresStore | pyulog/db.py:436-445 | a cache hit returns the cached entry and the unchanged handle, whatever the store holds |
| DatasetCache.FetchReadsStoredRow | pyulog/db.py:447-489 | outside a cache hit the answer is the stored row's dataset; with caching and an entry, that entry is replaced and all others kept; otherwise the data list is untouched |
| DatasetCache.LazyFetchIsEmpty | pyulog/db.py:456-467 | a lazy fetch that misses the cache has no fields and no series |
| DatasetCache.LoadedEntryRow | pyulog/db.py:260-274 | each loaded entry is read from the first stored row with its name and multi id |
| DatasetCache.LoadedDataList | pyulog/db.py:260-274 | the data list after a load is the one read from the record |
| DatasetCache.EagerRefetch | pyulog/db.py:436-489 | a handle holding the lazy load of its stored record, asked eagerly with caching for entry i's key, gets the eager read of entry i, and the first entry with that key is refreshed to it |
| DatasetCache.LazyFetchMatchesEagerOpen | pyulog/db.py:412-489 | an eager fetch, with caching, of a lazily opened handle's entry returns what an eager open holds there, and refreshes the first entry with that key to it |

## Left out

- SQL, connections, cursors and transactions. Each operation is one state transition, and a failed `save` leaves the store as it was.
- Key allocation is a counter that a rolled-back save does not advance. The schema is not part of this model, so a reuse of the largest deleted key by SQLite is not modelled.
- The race between the digest lookup and the insert, which run in separate connections. This is concurrency.
- SHA-256 and reading the file: the digest and the parsed contents of a file are function parameters of `LogStore.Open`.
- The `ULog` base class and its header parser, which are not part of this model. The following are parameters: the header size, the sync marker, the type-size table of `get_field_size`, and the message formats read from the header.
- numpy: a series is an opaque `seq<int>` with a type string, and the type-to-dtype table is not part of this model.
- The JSON column of `save`: its contents are never read back, so they are not modelled. Only its requirement that a dataset with fields has a `timestamp` series is modelled (`LogModel.Writable`). Series values are opaque here, so the model cannot see the one way that text can fail, which the next three lines describe.
- LogStore.Save: with `append_json`, the JSON text is built by replacing `nan` and `inf` with `null` in the printed dictionary (`db.py:570-573`). A float series holding -inf becomes `-null`, which SQLite's `json()` rejects as malformed at the field insert (`db.py:579-591`). That insert runs after the key is set (`db.py:530`), so the source raises, rolls back, and leaves the next key in the handle, as for a field without a series. The model reports success there. Its contract holds only where that JSON text is well formed. This is a second input for the `db.py:530` row under "## Findings".
- StoreProperties.SaveSucceedsIff: the "exactly when" holds only where the JSON text of `save` with `append_json` is well formed, for the reason given under `LogStore.Save`. With a float series holding -inf, the source raises although all three conditions hold.
- StoreProperties.DeleteThenSaveAgain: its "exactly when" holds only where the JSON text of `save` with `append_json` is well formed, for the reason given under `LogStore.Save`.
- The exception kinds: `ValueError`, `KeyError` and `IndexError` are constructors of `StoreError` and `ScanError`. Unstorable flags (`ValueError` from `chr`, or a lone surrogate the database refuses) are one error.
- The `msg_info` type dictionaries are paired with their values, so the `KeyError` for a value without a type cannot arise.
- mmap, file opening, the command-line `main`, `__eq__`, and the `primary_key` and `sha256sum` properties.
- ArmSearch.SearchBackSound: states only that a verdict is justified by some status message, because it holds for any bytes, and on bytes that are not a laid-out log there is no "latest segment" to name. On logs laid out as header, segments and markers, `ArmSegments.LatestStatusSegmentDecides` states the full answer.
- RoundTrip.SaveThenLoad: states the exact round trip only for `RoundTrip.Reloadable` contents, because outside them the load does not give the contents back. Four of the five ways out are stated by their own lemmas: `RoundTrip.EmptyTagIsLost`, `RoundTrip.EmptyFormatIsLost`, `RoundTrip.EmptyDefaultTypeIsLost` and `RoundTrip.DatasetsComeBackSorted`. No lemma states the whole result for a tagged message filed under another tag's key, or for a dataset whose series are not exactly its fields.
- StoreProperties.SaveThenOpen: requires `RoundTrip.Reloadable` contents, for the same reason as `RoundTrip.SaveThenLoad`.
- StoreProperties.SaveThenOpenLazily: requires `RoundTrip.Reloadable` contents, for the same reason as `RoundTrip.SaveThenLoad`.
- StoreProperties.LazyDatasetsRoundTrip: requires datasets in key order with exact fields. A data list out of key order comes back sorted, as `RoundTrip.DatasetsComeBackSorted` states for the eager load; the lazy counterpart is not stated.
- Row order of a SELECT without ORDER BY: SQLite does not fix it. The model assumes rows come back in the order they were inserted. `load` reads the dropouts, the logged and tagged messages, the format fields, the changed parameters and a dataset's field rows this way. `get_dataset` takes the `fetchone()` row of its lookup (`db.py:448-455`) as the first inserted row with the name and multi id, through `LogModel.FindDatasetRow` and `DatasetCache.LoadedEntryRow`.
- Uniqueness of dataset rows: the model assumes no uniqueness constraint on (log, name, multi id), so `save` stores a data list with two datasets of the same name and multi id as two rows. The bullet above on two datasets with the same key depends on this assumption.
- LogStore.GetDataset: the refresh on a cache hit with caching (`db.py:474-479`) changes the held dataset object in place, so a dataset returned earlier sees the refresh too. The model returns values, so this aliasing is not modelled: an earlier result keeps its old value.
- ArmVerdict.ArmVerdictWithoutSync: requires well-framed messages. A status message too short for the arming byte raises `IndexError` (`utils.py:105`), which `ArmVerdict.ShortStatusRaises` and `ArmVerdict.ShortStatusExample` state; a message shorter than its two id bytes is not described.
- ArmVerdict.LatestSegmentDecides: requires well-framed messages, for the same reason as `ArmVerdict.ArmVerdictWithoutSync`.
- ArmSegments.LatestStatusSegmentDecides: requires well-framed messages in every segment, for the same reason as `ArmVerdict.ArmVerdictWithoutSync`.

## Findings

| source | as written | input that shows it | evidently intended | confidence | as-written member | corrected member |
|---|---|---|---|---|---|---|
| pyulog/utils.py:97-99 | a message that is not a status message is skipped with `seek(msg_size - 2, SEEK_CUR)`; when the skip passes the end of the file, the mmap seek raises `ValueError` | a log whose last message is cut short after its id: a disarmed status message, then a 10-byte 'I' header with only its id present | the skip past the end ends the segment, like the short reads at lines 94-95 and 102-103, and the search answers from the status message read | not executed | ArmVerdict.TruncatedTailCounterexample | ArmVerdict.AsWrittenDiffersOnlyBySeekError |
| pyulog/db.py:530 | `self._pk = cur.lastrowid` is set before the dataset inserts, which raise `KeyError` for a declared field without a series; the transaction rolls back but the handle keeps the key | an empty store and a log with one dataset declaring field `timestamp` and holding no series: the handle is left with the first key, 1, which no log has; with `append_json`, a float series holding -inf, written as malformed JSON, fails the same way (not modelled, see "## Left out") | a failed save leaves the handle without a key, so a later save by another handle, which gets that key, cannot be deleted through it | not executed | StoreProperties.DanglingKeyDeletesNextLog | StoreProperties.SavedKeyNamesStoredLog |
