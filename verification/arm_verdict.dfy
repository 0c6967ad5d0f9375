/**
 What the reverse arm search computes on a well-formed log: a reference
 verdict on the messages of each sync-marker segment, the search's result on
 logs with no marker and with one marker, and the difference the reading of
 a skip past the end of the file makes.
 */
module ArmVerdict {
  import opened Wrappers
  import opened Stream
  import opened ArmSearch

  /** A vehicle-status data message: type 'D' carrying the subscribed id. */
  predicate IsStatus(m: Message, statusId: nat) {
    m.msgType == LoggedData && |m.payload| >= 2 && LE16(m.payload[0], m.payload[1]) == statusId
  }

  /** A status message whose arming byte, counted after the id, is nonzero. */
  predicate SaysArmed(m: Message, statusId: nat, armOffset: int) {
    IsStatus(m, statusId) && PyIndex(m.payload[2..], armOffset).Ok? && PyIndex(m.payload[2..], armOffset).value != 0
  }

  /**
   Messages the scanner reads as intended: each carries at least the two
   id bytes, and each status message is long enough to hold the arming byte.
   */
  predicate WellFramed(msgs: seq<Message>, statusId: nat, armOffset: int) {
    && Encodable(msgs)
    && forall i :: 0 <= i < |msgs| ==>
         |msgs[i].payload| >= 2 && (IsStatus(msgs[i], statusId) ==> PyIndex(msgs[i].payload[2..], armOffset).Ok?)
  }

  /** Message `i` is a status message starting before `searchedTo`. */
  predicate ScannedStatus(msgs: seq<Message>, starts: seq<int>, searchedTo: int, statusId: nat, i: int) {
    0 <= i < |msgs| && i < |starts| && starts[i] < searchedTo && IsStatus(msgs[i], statusId)
  }

  /** Some status message before `searchedTo` says armed. */
  ghost predicate AnyArmed(msgs: seq<Message>, starts: seq<int>, searchedTo: int, statusId: nat, armOffset: int) {
    exists i :: ScannedStatus(msgs, starts, searchedTo, statusId, i) && SaysArmed(msgs[i], statusId, armOffset)
  }

  /** Some status message starts before `searchedTo`. */
  ghost predicate AnyStatus(msgs: seq<Message>, starts: seq<int>, searchedTo: int, statusId: nat) {
    exists i :: ScannedStatus(msgs, starts, searchedTo, statusId, i)
  }

  /**
   The reference verdict on one segment: armed when a status message before
   `searchedTo` says armed, disarmed when there are such status messages and
   none says armed, and no verdict when there are none.
   */
  ghost function SegmentVerdict(msgs: seq<Message>, starts: seq<int>, searchedTo: int, statusId: nat, armOffset: int): Option<bool> {
    if AnyArmed(msgs, starts, searchedTo, statusId, armOffset) then Some(true)
    else if AnyStatus(msgs, starts, searchedTo, statusId) then Some(false)
    else None
  }

  /** A verdict reached later replaces what was recorded before. */
  function Latest(seen: Option<bool>, later: Option<bool>): Option<bool> {
    if later.None? then seen else later
  }

  /** The search's answer for a final verdict: none at all is the "no vehicle_status" error. */
  function Answer(v: Option<bool>): Result<bool, ScanError> {
    match v
    case Some(b) => Ok(b)
    case None => Err(NoVehicleStatus)
  }

  /** Peeling off the first message: the status messages of a segment are its first one, if scanned, and those of the rest. */
  lemma AnyStatusStep(msgs: seq<Message>, pos: int, searchedTo: int, statusId: nat)
    requires |msgs| > 0
    ensures var next := pos + MessageHeaderSize + |msgs[0].payload|;
            AnyStatus(msgs, Starts(msgs, pos), searchedTo, statusId)
            <==> (pos < searchedTo && IsStatus(msgs[0], statusId)) || AnyStatus(msgs[1..], Starts(msgs[1..], next), searchedTo, statusId)
  {
    var next := pos + MessageHeaderSize + |msgs[0].payload|;
    var starts := Starts(msgs, pos);
    var tail := msgs[1..];
    var rest := Starts(tail, next);
    assert starts == [pos] + rest;
    if pos < searchedTo && IsStatus(msgs[0], statusId) {
      assert ScannedStatus(msgs, starts, searchedTo, statusId, 0);
    }
    if AnyStatus(tail, rest, searchedTo, statusId) {
      var j :| ScannedStatus(tail, rest, searchedTo, statusId, j);
      assert tail[j] == msgs[j + 1];
      assert ScannedStatus(msgs, starts, searchedTo, statusId, j + 1);
    }
    if AnyStatus(msgs, starts, searchedTo, statusId) {
      var i :| ScannedStatus(msgs, starts, searchedTo, statusId, i);
      if i > 0 {
        assert tail[i - 1] == msgs[i];
        assert ScannedStatus(tail, rest, searchedTo, statusId, i - 1);
      }
    }
  }

  /** Peeling off the first message: the armed messages of a segment are its first one, if scanned and armed, and those of the rest. */
  lemma AnyArmedStep(msgs: seq<Message>, pos: int, searchedTo: int, statusId: nat, armOffset: int)
    requires |msgs| > 0
    ensures var next := pos + MessageHeaderSize + |msgs[0].payload|;
            AnyArmed(msgs, Starts(msgs, pos), searchedTo, statusId, armOffset)
            <==> (pos < searchedTo && SaysArmed(msgs[0], statusId, armOffset))
                 || AnyArmed(msgs[1..], Starts(msgs[1..], next), searchedTo, statusId, armOffset)
  {
    var next := pos + MessageHeaderSize + |msgs[0].payload|;
    var starts := Starts(msgs, pos);
    var tail := msgs[1..];
    var rest := Starts(tail, next);
    assert starts == [pos] + rest;
    if AnyArmed(tail, rest, searchedTo, statusId, armOffset) {
      var j :| ScannedStatus(tail, rest, searchedTo, statusId, j) && SaysArmed(tail[j], statusId, armOffset);
      assert tail[j] == msgs[j + 1];
      assert ScannedStatus(msgs, starts, searchedTo, statusId, j + 1);
    }
    if AnyArmed(msgs, starts, searchedTo, statusId, armOffset) {
      var i :| ScannedStatus(msgs, starts, searchedTo, statusId, i) && SaysArmed(msgs[i], statusId, armOffset);
      if i > 0 {
        assert tail[i - 1] == msgs[i];
        assert ScannedStatus(tail, rest, searchedTo, statusId, i - 1);
      }
    }
  }

  /** The verdict of a segment from its first message and the verdict of the rest. */
  lemma VerdictStep(msgs: seq<Message>, pos: int, searchedTo: int, statusId: nat, armOffset: int)
    requires |msgs| > 0
    ensures var next := pos + MessageHeaderSize + |msgs[0].payload|;
            var r := SegmentVerdict(msgs[1..], Starts(msgs[1..], next), searchedTo, statusId, armOffset);
            SegmentVerdict(msgs, Starts(msgs, pos), searchedTo, statusId, armOffset)
            == if pos < searchedTo && IsStatus(msgs[0], statusId) then
                 (if SaysArmed(msgs[0], statusId, armOffset) then Some(true) else Latest(Some(false), r))
               else r
  {
    AnyStatusStep(msgs, pos, searchedTo, statusId);
    AnyArmedStep(msgs, pos, searchedTo, statusId, armOffset);
  }

  /** The rest of a well-framed run is a well-framed run, held right after the first message. */
  lemma RestOfSegment(file: seq<byte>, pos: nat, msgs: seq<Message>, statusId: nat, armOffset: int)
    requires WellFramed(msgs, statusId, armOffset) && |msgs| > 0 && HoldsAt(file, pos, Encode(msgs))
    ensures var next := pos + MessageHeaderSize + |msgs[0].payload|;
            && WellFramed(msgs[1..], statusId, armOffset)
            && HoldsAt(file, next, Encode(msgs[1..]))
            && next + |Encode(msgs[1..])| == pos + |Encode(msgs)|
  {
    ReadRest(file, pos, msgs);
    EncodedBody(msgs, 0);
    assert forall j :: 0 <= j < |msgs| - 1 ==> msgs[1..][j] == msgs[j + 1];
  }

  /**
   One message of a well-framed segment: a status message that says armed
   ends the scan, one that says disarmed records it, any other is skipped.
   */
  lemma ReadStepOfMessage(file: seq<byte>, pos: nat, msgs: seq<Message>, statusId: nat, armOffset: int, rule: SeekRule)
    requires WellFramed(msgs, statusId, armOffset) && |msgs| > 0 && HoldsAt(file, pos, Encode(msgs))
    ensures var m := msgs[0];
            var next := pos + MessageHeaderSize + |m.payload|;
            ReadStep(file, pos, statusId, armOffset, rule)
            == if !IsStatus(m, statusId) then Skip(next)
               else if SaysArmed(m, statusId, armOffset) then Armed
               else Disarmed(next)
  {
    var m := msgs[0];
    var n := |m.payload|;
    var next := pos + MessageHeaderSize + n;
    ReadHeader(file, pos, msgs);
    ReadPayload(file, pos, msgs);
    assert n >= 2;
    var window := file[pos + 3 .. pos + 3 + n];
    assert file[pos + 3] == window[0] && file[pos + 4] == window[1];
    if IsStatus(m, statusId) {
      assert BodyEnd(file, pos) == next;
      assert file[pos + DataHeaderSize .. next] == m.payload[2..] by {
        assert file[pos + DataHeaderSize .. next] == window[2..];
      }
    }
  }
  /** The inner loop's step over the first message of a well-framed run. */
  lemma ScanStep(file: seq<byte>, pos: nat, searchedTo: int, msgs: seq<Message>,
                 statusId: nat, armOffset: int, seen: Option<bool>, rule: SeekRule)
    requires WellFramed(msgs, statusId, armOffset) && |msgs| > 0 && HoldsAt(file, pos, Encode(msgs))
    requires pos < searchedTo
    ensures var m := msgs[0];
            var next := pos + MessageHeaderSize + |m.payload|;
            next <= |file|
            && ScanSegment(file, pos, searchedTo, statusId, armOffset, seen, rule)
               == if !IsStatus(m, statusId) then ScanSegment(file, next, searchedTo, statusId, armOffset, seen, rule)
                  else if SaysArmed(m, statusId, armOffset) then Ok(Some(true))
                  else ScanSegment(file, next, searchedTo, statusId, armOffset, Some(false), rule)
  {
    ReadStepOfMessage(file, pos, msgs, statusId, armOffset, rule);
    ReadHeader(file, pos, msgs);
  }


  /**
   A status message too short to hold the arming byte raises `IndexError`
   when the inner loop reaches it, whatever was recorded before: the case
   that well-framed segments leave out.
   */
  lemma ShortStatusRaises(file: seq<byte>, pos: nat, searchedTo: int, msgs: seq<Message>,
                          statusId: nat, armOffset: int, seen: Option<bool>, rule: SeekRule)
    requires Encodable(msgs) && |msgs| > 0 && HoldsAt(file, pos, Encode(msgs)) && pos < searchedTo
    requires IsStatus(msgs[0], statusId) && PyIndex(msgs[0].payload[2..], armOffset).Err?
    ensures ScanSegment(file, pos, searchedTo, statusId, armOffset, seen, rule) == Err(IndexOutOfRange)
  {
    var m := msgs[0];
    var n := |m.payload|;
    var next := pos + MessageHeaderSize + n;
    ReadHeader(file, pos, msgs);
    ReadPayload(file, pos, msgs);
    var window := file[pos + 3 .. pos + 3 + n];
    assert file[pos + 3] == window[0] && file[pos + 4] == window[1];
    assert BodyEnd(file, pos) == next;
    assert file[pos + DataHeaderSize .. next] == m.payload[2..] by {
      assert file[pos + DataHeaderSize .. next] == window[2..];
    }
  }

  /** Nothing starting at or after `searchedTo` takes part in the verdict. */
  lemma VerdictPastEnd(msgs: seq<Message>, pos: int, searchedTo: int, statusId: nat, armOffset: int)
    requires searchedTo <= pos
    ensures SegmentVerdict(msgs, Starts(msgs, pos), searchedTo, statusId, armOffset) == None
  {
    StartsFrom(msgs, pos);
  }

  /**
   The same verdict computed message by message, the way the inner loop
   meets the messages.
   */
  function FoldVerdict(msgs: seq<Message>, pos: int, searchedTo: int, statusId: nat, armOffset: int): Option<bool>
    decreases |msgs|
  {
    if |msgs| == 0 || pos >= searchedTo then None
    else
      var later := FoldVerdict(msgs[1..], pos + MessageHeaderSize + |msgs[0].payload|, searchedTo, statusId, armOffset);
      if !IsStatus(msgs[0], statusId) then later
      else if SaysArmed(msgs[0], statusId, armOffset) then Some(true)
      else Latest(Some(false), later)
  }

  /** The message-by-message verdict over a first message that starts before the bound. */
  lemma FoldStep(msgs: seq<Message>, pos: int, searchedTo: int, statusId: nat, armOffset: int)
    requires |msgs| > 0 && pos < searchedTo
    ensures var later := FoldVerdict(msgs[1..], pos + MessageHeaderSize + |msgs[0].payload|, searchedTo, statusId, armOffset);
            FoldVerdict(msgs, pos, searchedTo, statusId, armOffset)
            == if !IsStatus(msgs[0], statusId) then later
               else if SaysArmed(msgs[0], statusId, armOffset) then Some(true)
               else Latest(Some(false), later)
  {
  }

  /** The message-by-message verdict is the reference verdict. */
  lemma {:induction false} FoldVerdictIsSegmentVerdict(msgs: seq<Message>, pos: int, searchedTo: int, statusId: nat, armOffset: int)
    ensures FoldVerdict(msgs, pos, searchedTo, statusId, armOffset)
         == SegmentVerdict(msgs, Starts(msgs, pos), searchedTo, statusId, armOffset)
    decreases |msgs|
  {
    if pos >= searchedTo {
      VerdictPastEnd(msgs, pos, searchedTo, statusId, armOffset);
    } else if |msgs| > 0 {
      VerdictStep(msgs, pos, searchedTo, statusId, armOffset);
      FoldVerdictIsSegmentVerdict(msgs[1..], pos + MessageHeaderSize + |msgs[0].payload|, searchedTo, statusId, armOffset);
    }
  }

  /**
   The inner loop over a segment laid out as well-framed messages yields the
   verdict of its messages, merged with what was recorded before, under
   either reading of a skip past the end.
   */
  lemma {:induction false} ScanOverSegment(file: seq<byte>, pos: nat, searchedTo: int, msgs: seq<Message>,
                                          statusId: nat, armOffset: int, seen: Option<bool>, rule: SeekRule)
    requires WellFramed(msgs, statusId, armOffset) && HoldsAt(file, pos, Encode(msgs))
    requires searchedTo <= pos + |Encode(msgs)|
    ensures ScanSegment(file, pos, searchedTo, statusId, armOffset, seen, rule)
         == Ok(Latest(seen, FoldVerdict(msgs, pos, searchedTo, statusId, armOffset)))
    decreases |msgs|
  {
    if |msgs| > 0 && pos < searchedTo {
      var m := msgs[0];
      var next := pos + MessageHeaderSize + |m.payload|;
      ScanStep(file, pos, searchedTo, msgs, statusId, armOffset, seen, rule);
      RestOfSegment(file, pos, msgs, statusId, armOffset);
      FoldStep(msgs, pos, searchedTo, statusId, armOffset);
      if !IsStatus(m, statusId) {
        ScanOverSegment(file, next, searchedTo, msgs[1..], statusId, armOffset, seen, rule);
      } else if !SaysArmed(m, statusId, armOffset) {
        ScanOverSegment(file, next, searchedTo, msgs[1..], statusId, armOffset, Some(false), rule);
      }
    } else {
      ScanPastEnd(file, pos, searchedTo, statusId, armOffset, seen, rule);
    }
  }

  /** A walk that starts at or after `searchedTo` stops at once. */
  lemma ScanPastEnd(file: seq<byte>, pos: nat, searchedTo: int, statusId: nat, armOffset: int, seen: Option<bool>, rule: SeekRule)
    requires pos <= |file| && searchedTo <= pos
    ensures ScanSegment(file, pos, searchedTo, statusId, armOffset, seen, rule) == Ok(seen)
  {}

  /**
   A log with no sync marker is one segment: the answer is the verdict of
   all its messages, or the "no vehicle_status" error when none of them is
   a status message. The corrected search answers the same.
   */
  lemma ArmVerdictWithoutSync(file: seq<byte>, sync: seq<byte>, headerSize: nat, msgs: seq<Message>, statusId: nat, armOffset: int)
    requires WellFramed(msgs, statusId, armOffset)
    requires HoldsAt(file, headerSize, Encode(msgs)) && |file| == headerSize + |Encode(msgs)|
    requires forall i :: !SyncAt(file, sync, i)
    ensures ReverseSearchForArm(file, sync, headerSize, statusId, armOffset)
         == Answer(SegmentVerdict(msgs, Starts(msgs, headerSize), |file|, statusId, armOffset))
    ensures ReverseSearchForArmCorrected(file, sync, headerSize, statusId, armOffset)
         == ReverseSearchForArm(file, sync, headerSize, statusId, armOffset)
  {
    var v := FoldVerdict(msgs, headerSize, |file|, statusId, armOffset);
    FoldVerdictIsSegmentVerdict(msgs, headerSize, |file|, statusId, armOffset);
    RFindNoMarker(file, sync, |file|);
    SearchBackUnfold(file, sync, headerSize, statusId, armOffset, |file|, |file|, StopOnSeekPastEnd);
    SearchBackUnfold(file, sync, headerSize, statusId, armOffset, |file|, |file|, RaiseOnSeekPastEnd);
    ScanOverSegment(file, headerSize, |file|, msgs, statusId, armOffset, None, StopOnSeekPastEnd);
    ScanOverSegment(file, headerSize, |file|, msgs, statusId, armOffset, None, RaiseOnSeekPastEnd);
  }

  /** Messages none of which is a status message add nothing to a verdict. */
  lemma {:induction false} FoldWithoutStatus(msgs: seq<Message>, pos: int, searchedTo: int, statusId: nat, armOffset: int)
    requires forall j :: 0 <= j < |msgs| ==> !IsStatus(msgs[j], statusId)
    ensures FoldVerdict(msgs, pos, searchedTo, statusId, armOffset) == None
    decreases |msgs|
  {
    if |msgs| > 0 && pos < searchedTo {
      assert forall j :: 0 <= j < |msgs| - 1 ==> msgs[1..][j] == msgs[j + 1];
      FoldWithoutStatus(msgs[1..], pos + MessageHeaderSize + |msgs[0].payload|, searchedTo, statusId, armOffset);
    }
  }

  /** Appending messages none of which is a status message leaves a verdict as it was. */
  lemma {:induction false} FoldAppendWithoutStatus(a: seq<Message>, b: seq<Message>, pos: int, searchedTo: int, statusId: nat, armOffset: int)
    requires forall j :: 0 <= j < |b| ==> !IsStatus(b[j], statusId)
    ensures FoldVerdict(a + b, pos, searchedTo, statusId, armOffset) == FoldVerdict(a, pos, searchedTo, statusId, armOffset)
    decreases |a|
  {
    if |a| == 0 {
      assert a + b == b;
      FoldWithoutStatus(b, pos, searchedTo, statusId, armOffset);
    } else if pos < searchedTo {
      assert (a + b)[1..] == a[1..] + b;
      assert (a + b)[0] == a[0];
      FoldAppendWithoutStatus(a[1..], b, pos + MessageHeaderSize + |a[0].payload|, searchedTo, statusId, armOffset);
    }
  }

  /** The marker message that opens a sync segment. */
  function Marker(sync: seq<byte>): Message {
    Message(SyncMessage, sync)
  }

  /**
   The layout of a log with one sync marker: the header, the older
   messages, the marker message, the newer messages, and nothing after.
   */
  predicate OneMarkerLog(file: seq<byte>, sync: seq<byte>, headerSize: nat, older: seq<Message>, newer: seq<Message>,
                         statusId: nat, armOffset: int)
  {
    && WellFramed(older, statusId, armOffset) && WellFramed(newer, statusId, armOffset)
    && 2 <= |sync| < 65536
    && HoldsAt(file, headerSize, Encode(older))
    && HoldsAt(file, headerSize + |Encode(older)|, EncodeMessage(Marker(sync)))
    && HoldsAt(file, MarkerAt(headerSize, older) + |sync|, Encode(newer))
    && |file| == MarkerAt(headerSize, older) + |sync| + |Encode(newer)|
  }

  /** Where the marker bytes begin: after the header, the older messages and the marker's own header. */
  function MarkerAt(headerSize: nat, older: seq<Message>): int
    requires Encodable(older)
  {
    headerSize + |Encode(older)| + MessageHeaderSize
  }

  /** The marker of a one-marker log is found where it was written. */
  lemma MarkerFound(file: seq<byte>, sync: seq<byte>, headerSize: nat, older: seq<Message>, newer: seq<Message>,
                    statusId: nat, armOffset: int)
    requires OneMarkerLog(file, sync, headerSize, older, newer, statusId, armOffset)
    ensures SyncAt(file, sync, MarkerAt(headerSize, older))
  {
    var q := MarkerAt(headerSize, older);
    var bytes := EncodeMessage(Marker(sync));
    forall k | 0 <= k < |sync| ensures file[q + k] == sync[k] {
      assert file[headerSize + |Encode(older)| + (MessageHeaderSize + k)] == bytes[MessageHeaderSize + k];
    }
    assert file[q .. q + |sync|] == sync;
  }

  /** The first outer iteration on a one-marker log scans the newer segment. */
  lemma NewerSegmentFirst(file: seq<byte>, sync: seq<byte>, headerSize: nat, older: seq<Message>, newer: seq<Message>,
                          statusId: nat, armOffset: int, rule: SeekRule)
    requires OneMarkerLog(file, sync, headerSize, older, newer, statusId, armOffset)
    requires forall i :: SyncAt(file, sync, i) ==> i == MarkerAt(headerSize, older)
    ensures var q := MarkerAt(headerSize, older);
            SearchBack(file, sync, headerSize, statusId, armOffset, |file|, |file|, rule)
            == match FoldVerdict(newer, q + |sync|, |file|, statusId, armOffset)
               case Some(b) => Ok(b)
               case None => SearchBack(file, sync, headerSize, statusId, armOffset, q - 1, q, rule)
  {
    var q := MarkerAt(headerSize, older);
    MarkerFound(file, sync, headerSize, older, newer, statusId, armOffset);
    RFindOnlyMarker(file, sync, |file|, q);
    SearchBackUnfold(file, sync, headerSize, statusId, armOffset, |file|, |file|, rule);
    ScanOverSegment(file, q + |sync|, |file|, newer, statusId, armOffset, None, rule);
  }

  /** The second outer iteration on a one-marker log scans the older segment, up to the marker. */
  lemma OlderSegmentNext(file: seq<byte>, sync: seq<byte>, headerSize: nat, older: seq<Message>, newer: seq<Message>,
                         statusId: nat, armOffset: int, rule: SeekRule)
    requires OneMarkerLog(file, sync, headerSize, older, newer, statusId, armOffset)
    requires forall i :: SyncAt(file, sync, i) ==> i == MarkerAt(headerSize, older)
    ensures var q := MarkerAt(headerSize, older);
            SearchBack(file, sync, headerSize, statusId, armOffset, q - 1, q, rule)
            == Answer(FoldVerdict(older, headerSize, q, statusId, armOffset))
  {
    var q := MarkerAt(headerSize, older);
    var s := Marker(sync);
    MarkerFound(file, sync, headerSize, older, newer, statusId, armOffset);
    RFindOnlyMarker(file, sync, q - 1, q);
    SearchBackUnfold(file, sync, headerSize, statusId, armOffset, q - 1, q, rule);
    EncodeSingle(s);
    HoldsAtJoin(file, headerSize, older, [s]);
    assert WellFramed(older + [s], statusId, armOffset) by {
      assert forall j :: 0 <= j < |older| ==> (older + [s])[j] == older[j];
      assert (older + [s])[|older|] == s;
    }
    EncodeAppend(older, [s]);
    ScanOverSegment(file, headerSize, q, older + [s], statusId, armOffset, None, rule);
    FoldAppendWithoutStatus(older, [s], headerSize, q, statusId, armOffset);
  }

  /** Both outer iterations on a one-marker log, under either reading of a skip past the end. */
  lemma OneMarkerSearch(file: seq<byte>, sync: seq<byte>, headerSize: nat, older: seq<Message>, newer: seq<Message>,
                        statusId: nat, armOffset: int, rule: SeekRule)
    requires OneMarkerLog(file, sync, headerSize, older, newer, statusId, armOffset)
    requires forall i :: SyncAt(file, sync, i) ==> i == MarkerAt(headerSize, older)
    ensures var q := MarkerAt(headerSize, older);
            SearchBack(file, sync, headerSize, statusId, armOffset, |file|, |file|, rule)
            == match FoldVerdict(newer, q + |sync|, |file|, statusId, armOffset)
               case Some(b) => Ok(b)
               case None => Answer(FoldVerdict(older, headerSize, q, statusId, armOffset))
  {
    NewerSegmentFirst(file, sync, headerSize, older, newer, statusId, armOffset, rule);
    OlderSegmentNext(file, sync, headerSize, older, newer, statusId, armOffset, rule);
  }

  /**
   In a log with one sync marker, the segment after the marker decides; the
   segment before it decides only when the later one holds no status
   message, and with neither the answer is the "no vehicle_status" error.
   The corrected search answers the same on such a log.
   */
  lemma LatestSegmentDecides(file: seq<byte>, sync: seq<byte>, headerSize: nat, older: seq<Message>, newer: seq<Message>,
                             statusId: nat, armOffset: int)
    requires OneMarkerLog(file, sync, headerSize, older, newer, statusId, armOffset)
    requires forall i :: SyncAt(file, sync, i) ==> i == MarkerAt(headerSize, older)
    ensures var q := MarkerAt(headerSize, older);
            ReverseSearchForArm(file, sync, headerSize, statusId, armOffset)
            == match SegmentVerdict(newer, Starts(newer, q + |sync|), |file|, statusId, armOffset)
               case Some(b) => Ok(b)
               case None => Answer(SegmentVerdict(older, Starts(older, headerSize), q, statusId, armOffset))
    ensures ReverseSearchForArmCorrected(file, sync, headerSize, statusId, armOffset)
         == ReverseSearchForArm(file, sync, headerSize, statusId, armOffset)
  {
    var q := MarkerAt(headerSize, older);
    OneMarkerSearch(file, sync, headerSize, older, newer, statusId, armOffset, StopOnSeekPastEnd);
    OneMarkerSearch(file, sync, headerSize, older, newer, statusId, armOffset, RaiseOnSeekPastEnd);
    FoldVerdictIsSegmentVerdict(newer, q + |sync|, |file|, statusId, armOffset);
    FoldVerdictIsSegmentVerdict(older, headerSize, q, statusId, armOffset);
  }

  // ---------------------------------------------------------------------
  // Reading a skip past the end of the file
  // ---------------------------------------------------------------------

  /**
   The two readings of a skip past the end differ only where the source
   raises: the corrected step then reads the end of the file, and it never
   fails with a seek out of range.
   */
  lemma ReadStepRulesAgree(file: seq<byte>, pos: nat, statusId: nat, armOffset: int)
    requires pos <= |file|
    ensures var w := ReadStep(file, pos, statusId, armOffset, RaiseOnSeekPastEnd);
            var c := ReadStep(file, pos, statusId, armOffset, StopOnSeekPastEnd);
            && c != Failed(SeekOutOfRange)
            && (w == Failed(SeekOutOfRange) ==> c == EndOfFile)
            && (w != Failed(SeekOutOfRange) ==> w == c)
  {}

  /** The inner loop: the two readings agree unless the source's raises. */
  lemma {:induction false} ScanRulesAgree(file: seq<byte>, pos: nat, searchedTo: int, statusId: nat, armOffset: int, seen: Option<bool>)
    requires pos <= |file|
    ensures var w := ScanSegment(file, pos, searchedTo, statusId, armOffset, seen, RaiseOnSeekPastEnd);
            w != Err(SeekOutOfRange) ==> w == ScanSegment(file, pos, searchedTo, statusId, armOffset, seen, StopOnSeekPastEnd)
    decreases |file| - pos
  {
    if pos < searchedTo {
      ReadStepRulesAgree(file, pos, statusId, armOffset);
      match ReadStep(file, pos, statusId, armOffset, StopOnSeekPastEnd)
      case Disarmed(next) =>
        ScanRulesAgree(file, next, searchedTo, statusId, armOffset, Some(false));
      case Skip(next) =>
        ScanRulesAgree(file, next, searchedTo, statusId, armOffset, seen);
      case _ =>
    }
  }

  /** The corrected inner loop never fails with a seek out of range. */
  lemma {:induction false} ScanNeverSeekFails(file: seq<byte>, pos: nat, searchedTo: int, statusId: nat, armOffset: int, seen: Option<bool>)
    requires pos <= |file|
    ensures ScanSegment(file, pos, searchedTo, statusId, armOffset, seen, StopOnSeekPastEnd) != Err(SeekOutOfRange)
    decreases |file| - pos
  {
    if pos < searchedTo {
      ReadStepRulesAgree(file, pos, statusId, armOffset);
      match ReadStep(file, pos, statusId, armOffset, StopOnSeekPastEnd)
      case Disarmed(next) =>
        ScanNeverSeekFails(file, next, searchedTo, statusId, armOffset, Some(false));
      case Skip(next) =>
        ScanNeverSeekFails(file, next, searchedTo, statusId, armOffset, seen);
      case _ =>
    }
  }

  /** The outer loop of the corrected search never fails with a seek out of range. */
  lemma {:induction false} CorrectedNeverSeekFails(file: seq<byte>, sync: seq<byte>, headerSize: nat, statusId: nat, armOffset: int,
                                                  offset: int, searchedTo: int)
    requires offset <= |file| && searchedTo <= |file|
    ensures SearchBack(file, sync, headerSize, statusId, armOffset, offset, searchedTo, StopOnSeekPastEnd) != Err(SeekOutOfRange)
    decreases offset + 1
  {
    if offset >= headerSize {
      var start, scanFrom := SearchBackStep(file, sync, headerSize, statusId, armOffset, offset, searchedTo, StopOnSeekPastEnd);
      ScanNeverSeekFails(file, scanFrom, searchedTo, statusId, armOffset, None);
      CorrectedNeverSeekFails(file, sync, headerSize, statusId, armOffset, start - 1, start);
    }
  }

  /** The outer loop: the two readings agree unless the source's raises. */
  lemma {:induction false} SearchRulesAgree(file: seq<byte>, sync: seq<byte>, headerSize: nat, statusId: nat, armOffset: int,
                                           offset: int, searchedTo: int)
    requires offset <= |file| && searchedTo <= |file|
    ensures var w := SearchBack(file, sync, headerSize, statusId, armOffset, offset, searchedTo, RaiseOnSeekPastEnd);
            w != Err(SeekOutOfRange) ==> w == SearchBack(file, sync, headerSize, statusId, armOffset, offset, searchedTo, StopOnSeekPastEnd)
    decreases offset + 1
  {
    if offset >= headerSize {
      var start, scanFrom := SearchBackStep(file, sync, headerSize, statusId, armOffset, offset, searchedTo, RaiseOnSeekPastEnd);
      var _, _ := SearchBackStep(file, sync, headerSize, statusId, armOffset, offset, searchedTo, StopOnSeekPastEnd);
      ScanRulesAgree(file, scanFrom, searchedTo, statusId, armOffset, None);
      SearchRulesAgree(file, sync, headerSize, statusId, armOffset, start - 1, start);
    }
  }

  /**
   The corrected search never fails with a seek out of range, and wherever
   the search as written does not raise it, the two give the same answer.
   */
  lemma AsWrittenDiffersOnlyBySeekError(file: seq<byte>, sync: seq<byte>, headerSize: nat, statusId: nat, armOffset: int)
    ensures ReverseSearchForArmCorrected(file, sync, headerSize, statusId, armOffset) != Err(SeekOutOfRange)
    ensures ReverseSearchForArm(file, sync, headerSize, statusId, armOffset) != Err(SeekOutOfRange)
            ==> ReverseSearchForArm(file, sync, headerSize, statusId, armOffset)
                == ReverseSearchForArmCorrected(file, sync, headerSize, statusId, armOffset)
  {
    SearchRulesAgree(file, sync, headerSize, statusId, armOffset, |file|, |file|);
    CorrectedNeverSeekFails(file, sync, headerSize, statusId, armOffset, |file|, |file|);
  }

  /**
   A log whose last message is cut short: a status message saying
   disarmed (size 3, id 1, arming byte 0 at offset 0), then the header of a
   10-byte 'I' message with only its id present.
   */
  const TruncatedLog: seq<byte> := [3, 0, 68, 1, 0, 0, 10, 0, 73, 0, 0]

  /** A marker that does not occur in the truncated log. */
  const AbsentMarker: seq<byte> := [255, 255]

  /** The two messages of the truncated log, as each reading sees them. */
  lemma TruncatedLogSteps()
    ensures ReadStep(TruncatedLog, 0, 1, 0, RaiseOnSeekPastEnd) == Disarmed(6)
    ensures ReadStep(TruncatedLog, 0, 1, 0, StopOnSeekPastEnd) == Disarmed(6)
    ensures ReadStep(TruncatedLog, 6, 1, 0, RaiseOnSeekPastEnd) == Failed(SeekOutOfRange)
    ensures ReadStep(TruncatedLog, 6, 1, 0, StopOnSeekPastEnd) == EndOfFile
  {
    assert TruncatedLog[5 .. 6] == [0];
  }

  /** The truncated log has no marker: it is one segment. */
  lemma TruncatedLogHasNoMarker()
    ensures RFind(TruncatedLog, AbsentMarker, |TruncatedLog|) == -1
  {
    assert forall i :: 0 <= i < |TruncatedLog| ==> TruncatedLog[i] < 255;
    assert forall i :: SyncAt(TruncatedLog, AbsentMarker, i) ==> TruncatedLog[i .. i + 2][0] == TruncatedLog[i];
    RFindNoMarker(TruncatedLog, AbsentMarker, |TruncatedLog|);
  }

  /**
   On the truncated log the search as written raises, where the corrected
   search answers "not armed" from the status message it read.
   */
  lemma TruncatedTailCounterexample()
    ensures ReverseSearchForArm(TruncatedLog, AbsentMarker, 0, 1, 0) == Err(SeekOutOfRange)
    ensures ReverseSearchForArmCorrected(TruncatedLog, AbsentMarker, 0, 1, 0) == Ok(false)
  {
    TruncatedLogSteps();
    TruncatedLogHasNoMarker();
    SearchBackUnfold(TruncatedLog, AbsentMarker, 0, 1, 0, |TruncatedLog|, |TruncatedLog|, RaiseOnSeekPastEnd);
    SearchBackUnfold(TruncatedLog, AbsentMarker, 0, 1, 0, |TruncatedLog|, |TruncatedLog|, StopOnSeekPastEnd);
    assert ScanSegment(TruncatedLog, 0, |TruncatedLog|, 1, 0, None, RaiseOnSeekPastEnd) == Err(SeekOutOfRange);
    assert ScanSegment(TruncatedLog, 0, |TruncatedLog|, 1, 0, None, StopOnSeekPastEnd) == Ok(Some(false));
  }

  /** A log of one status message with no byte after its id. */
  const ShortStatusLog: seq<byte> := [2, 0, 68, 0, 0]

  /** The status message the short log holds: its payload is the status id and nothing after it. */
  const ShortStatus: Message := Message(LoggedData, [0, 0])

  /** The short log is the short status message. */
  lemma ShortStatusLogHolds()
    ensures |ShortStatus.payload| < 65536 && EncodeMessage(ShortStatus) == ShortStatusLog
  {}

  /** The short status message is not well framed. */
  lemma ShortStatusNotWellFramed()
    ensures !WellFramed([ShortStatus], 0, 0)
  {
    assert ShortStatus.payload[2..] == [];
    assert [ShortStatus][0] == ShortStatus;
  }

  /** The short log has no marker: it is one segment. */
  lemma ShortStatusLogHasNoMarker()
    ensures RFind(ShortStatusLog, AbsentMarker, |ShortStatusLog|) == -1
  {
    assert forall i :: 0 <= i < |ShortStatusLog| ==> ShortStatusLog[i] < 255;
    assert forall i :: SyncAt(ShortStatusLog, AbsentMarker, i) ==> ShortStatusLog[i .. i + 2][0] == ShortStatusLog[i];
    RFindNoMarker(ShortStatusLog, AbsentMarker, |ShortStatusLog|);
  }

  /** With no marker in the file, a segment that fails makes the whole search fail the same way. */
  lemma UnmarkedFailure(file: seq<byte>, sync: seq<byte>, headerSize: nat, statusId: nat, armOffset: int, rule: SeekRule)
    requires headerSize <= |file| && RFind(file, sync, |file|) == -1
    requires ScanSegment(file, headerSize, |file|, statusId, armOffset, None, rule).Err?
    ensures SearchBack(file, sync, headerSize, statusId, armOffset, |file|, |file|, rule)
            == Err(ScanSegment(file, headerSize, |file|, statusId, armOffset, None, rule).error)
  {
    SearchBackUnfold(file, sync, headerSize, statusId, armOffset, |file|, |file|, rule);
  }

  /** A file holding only a status message with nothing after its id fails in the inner loop. */
  lemma ShortMessageRaises(lo: byte, hi: byte, armOffset: int, rule: SeekRule)
    ensures var file := EncodeMessage(Message(LoggedData, [lo, hi]));
            ScanSegment(file, 0, |file|, LE16(lo, hi), armOffset, None, rule) == Err(IndexOutOfRange)
  {
    var m := Message(LoggedData, [lo, hi]);
    EncodeSingle(m);
    assert [m][0] == m && m.payload[2..] == [];
    ShortStatusRaises(EncodeMessage(m), 0, |EncodeMessage(m)|, [m], LE16(lo, hi), armOffset, None, rule);
  }

  /**
   On the log of one status message too short for the arming byte, both
   searches raise `IndexError`: outside the well-framed logs the verdict
   lemmas describe.
   */
  lemma ShortStatusExample()
    ensures ReverseSearchForArm(ShortStatusLog, AbsentMarker, 0, 0, 0) == Err(IndexOutOfRange)
    ensures ReverseSearchForArmCorrected(ShortStatusLog, AbsentMarker, 0, 0, 0) == Err(IndexOutOfRange)
  {
    ShortStatusSearch(RaiseOnSeekPastEnd);
    ShortStatusSearch(StopOnSeekPastEnd);
  }

  /** The search over the short log, under either reading of a skip past the end. */
  lemma ShortStatusSearch(rule: SeekRule)
    ensures SearchBack(ShortStatusLog, AbsentMarker, 0, 0, 0, |ShortStatusLog|, |ShortStatusLog|, rule) == Err(IndexOutOfRange)
  {
    assert ScanSegment(ShortStatusLog, 0, |ShortStatusLog|, 0, 0, None, rule) == Err(IndexOutOfRange) by {
      ShortStatusLogHolds();
      ShortMessageRaises(0, 0, 0, rule);
      assert LE16(0, 0) == 0;
    }
    ShortStatusLogHasNoMarker();
    UnmarkedFailure(ShortStatusLog, AbsentMarker, 0, 0, 0, rule);
  }
}
