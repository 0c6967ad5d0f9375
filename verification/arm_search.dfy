/**
 `reverse_search_for_arm` and `check_if_log_was_armed` of pyulog/utils.py:
 decide whether a vehicle was armed from the latest arming reason, without
 decoding the whole log. The file is cut into segments at sync markers and
 the segments are scanned from the end of the file towards its start.
 */
module ArmSearch {
  import opened Wrappers
  import opened Stream
  import opened Formats
  import opened Subscription

  /** A data message header: `<size:u16><type:u8><msg_id:u16>`. */
  const DataHeaderSize := MessageHeaderSize + 2

  /**
   What a skip past the end of the file does: the source raises (a seek out
   of range), where the evidently intended behaviour is the same end-of-file
   stop as for a short read.
   */
  datatype SeekRule = RaiseOnSeekPastEnd | StopOnSeekPastEnd

  // ---------------------------------------------------------------------
  // rfind
  // ---------------------------------------------------------------------

  predicate SyncAt(file: seq<byte>, sync: seq<byte>, i: int) {
    0 <= i && i + |sync| <= |file| && file[i .. i + |sync|] == sync
  }

  /**
   `rfind(sync, 0, bound)`: the last index at which the whole marker fits
   below `bound`, or -1.
   */
  function RFind(file: seq<byte>, sync: seq<byte>, bound: int): (r: int)
    requires bound <= |file|
    ensures r == -1 || (SyncAt(file, sync, r) && r + |sync| <= bound)
    ensures forall i :: r < i && i + |sync| <= bound ==> !SyncAt(file, sync, i)
  {
    LastSyncUpTo(file, sync, bound - |sync|)
  }

  function LastSyncUpTo(file: seq<byte>, sync: seq<byte>, i: int): (r: int)
    requires i + |sync| <= |file|
    ensures r == -1 || (0 <= r <= i && SyncAt(file, sync, r))
    ensures forall j :: r < j <= i ==> !SyncAt(file, sync, j)
    decreases i + 1
  {
    if i < 0 then -1
    else if file[i .. i + |sync|] == sync then i
    else LastSyncUpTo(file, sync, i - 1)
  }

  /** Without any marker the search finds none. */
  lemma RFindNoMarker(file: seq<byte>, sync: seq<byte>, bound: int)
    requires bound <= |file|
    requires forall i :: !SyncAt(file, sync, i)
    ensures RFind(file, sync, bound) == -1
  {}

  /** With exactly one marker, at `q`, the search finds it exactly when it fits below the bound. */
  lemma RFindOnlyMarker(file: seq<byte>, sync: seq<byte>, bound: int, q: int)
    requires bound <= |file| && SyncAt(file, sync, q)
    requires forall i :: SyncAt(file, sync, i) ==> i == q
    ensures RFind(file, sync, bound) == if q + |sync| <= bound then q else -1
  {}

  // ---------------------------------------------------------------------
  // Scanning one segment
  // ---------------------------------------------------------------------

  /** Python indexing of a byte string, negative indices counting from the end. */
  function PyIndex(body: seq<byte>, index: int): Result<byte, ScanError> {
    if 0 <= index < |body| then Ok(body[index])
    else if -|body| <= index < 0 then Ok(body[|body| + index])
    else Err(IndexOutOfRange)
  }

  /**
   Where the body of a data message at `p` ends: `read(size - 2)` reads the
   rest of the file when `size - 2` is negative.
   */
  function BodyEnd(file: seq<byte>, p: int): int
    requires 0 <= p && p + 2 <= |file|
  {
    var size := LE16(file[p], file[p + 1]);
    if size >= 2 then p + MessageHeaderSize + size else |file|
  }

  /** A complete 'D' message with id `statusId` starts at `p`. */
  predicate StatusMessageAt(file: seq<byte>, p: int, statusId: nat) {
    && 0 <= p && p + DataHeaderSize <= |file|
    && file[p + 2] == LoggedData && LE16(file[p + 3], file[p + 4]) == statusId
    && BodyEnd(file, p) <= |file|
  }

  /** The arming byte of the status message at `p`. */
  function ArmByteAt(file: seq<byte>, p: int, statusId: nat, armOffset: int): Result<byte, ScanError>
    requires StatusMessageAt(file, p, statusId)
  {
    PyIndex(file[p + DataHeaderSize .. BodyEnd(file, p)], armOffset)
  }

  /** The status message at `p` says the vehicle is armed. */
  predicate ArmedAt(file: seq<byte>, p: int, statusId: nat, armOffset: int) {
    StatusMessageAt(file, p, statusId)
    && ArmByteAt(file, p, statusId, armOffset).Ok? && ArmByteAt(file, p, statusId, armOffset).value != 0
  }

  /** The status message at `p` says the vehicle is disarmed. */
  predicate DisarmedAt(file: seq<byte>, p: int, statusId: nat, armOffset: int) {
    StatusMessageAt(file, p, statusId) && ArmByteAt(file, p, statusId, armOffset) == Ok(0)
  }

  /** What reading the message at a position tells the inner loop. */
  datatype Step =
    | EndOfFile                 // a short read: the walk ends
    | Failed(error: ScanError)  // an exception escapes the search
    | Armed                     // a status message whose arming byte is nonzero
    | Disarmed(next: nat)       // a status message whose arming byte is zero; the walk goes on at `next`
    | Skip(next: nat)           // any other message; the walk goes on at `next`

  /**
   Reads the header and id at `pos`; skips a message that is not a status
   message, or reads the body of one and its arming byte.
   */
  function ReadStep(file: seq<byte>, pos: nat, statusId: nat, armOffset: int, rule: SeekRule): (s: Step)
    requires pos <= |file|
    ensures (s.Disarmed? || s.Skip?) ==> pos < s.next <= |file|
  {
    if pos + DataHeaderSize > |file| then EndOfFile
    else
      var size := LE16(file[pos], file[pos + 1]);
      if file[pos + 2] != LoggedData || LE16(file[pos + 3], file[pos + 4]) != statusId then
        var next := pos + MessageHeaderSize + size;
        if next <= |file| then Skip(next)
        else if rule == RaiseOnSeekPastEnd then Failed(SeekOutOfRange)
        else EndOfFile
      else
        var bodyEnd := BodyEnd(file, pos);
        if bodyEnd > |file| then EndOfFile
        else match PyIndex(file[pos + DataHeaderSize .. bodyEnd], armOffset)
          case Err(e) => Failed(e)
          case Ok(b) => if b != 0 then Armed else Disarmed(bodyEnd)
  }

  /** A step reads "armed" or "disarmed" only off a complete status message that says so. */
  lemma ReadStepSound(file: seq<byte>, pos: nat, statusId: nat, armOffset: int, rule: SeekRule)
    requires pos <= |file|
    ensures ReadStep(file, pos, statusId, armOffset, rule).Armed? ==> ArmedAt(file, pos, statusId, armOffset)
    ensures ReadStep(file, pos, statusId, armOffset, rule).Disarmed? ==> DisarmedAt(file, pos, statusId, armOffset)
  {}

  /**
   The inner loop: walks messages from `pos` while before `searchedTo`. A
   status message with a nonzero arming byte ends the walk with `true`; one
   with a zero byte records `false` and the walk goes on. A short read ends
   the walk with what was recorded so far.
   */
  function ScanSegment(file: seq<byte>, pos: nat, searchedTo: int, statusId: nat, armOffset: int,
                       seen: Option<bool>, rule: SeekRule): Result<Option<bool>, ScanError>
    requires pos <= |file|
    decreases |file| - pos
  {
    if pos >= searchedTo then Ok(seen)
    else match ReadStep(file, pos, statusId, armOffset, rule)
      case EndOfFile => Ok(seen)
      case Failed(e) => Err(e)
      case Armed => Ok(Some(true))
      case Disarmed(next) => ScanSegment(file, next, searchedTo, statusId, armOffset, Some(false), rule)
      case Skip(next) => ScanSegment(file, next, searchedTo, statusId, armOffset, seen, rule)
  }

  /**
   `true` comes only from a status message with a nonzero arming byte,
   `false` only from one with a zero byte (or from what was recorded
   before), and "nothing seen" only when nothing was recorded.
   */
  lemma {:induction false} ScanSegmentSound(file: seq<byte>, pos: nat, searchedTo: int, statusId: nat, armOffset: int,
                                           seen: Option<bool>, rule: SeekRule)
    requires pos <= |file| && seen != Some(true)
    ensures var r := ScanSegment(file, pos, searchedTo, statusId, armOffset, seen, rule);
            && (r == Ok(Some(true)) ==>
                  exists p :: pos <= p < searchedTo && ArmedAt(file, p, statusId, armOffset))
            && (r == Ok(Some(false)) ==>
                  seen == Some(false)
                  || exists p :: pos <= p < searchedTo && DisarmedAt(file, p, statusId, armOffset))
            && (r == Ok(None) ==> seen == None)
    decreases |file| - pos
  {
    if pos < searchedTo {
      ReadStepSound(file, pos, statusId, armOffset, rule);
      match ReadStep(file, pos, statusId, armOffset, rule)
      case Disarmed(next) =>
        ScanSegmentSound(file, next, searchedTo, statusId, armOffset, Some(false), rule);
      case Skip(next) =>
        ScanSegmentSound(file, next, searchedTo, statusId, armOffset, seen, rule);
      case _ =>
    }
  }

  // ---------------------------------------------------------------------
  // The outer loop over sync-marker segments
  // ---------------------------------------------------------------------

  /**
   The verdict on the latest arming reason, searching backwards from the end
   of the file, as the source writes it: a skip past the end of the file
   raises.
   */
  function ReverseSearchForArm(file: seq<byte>, sync: seq<byte>, headerSize: nat, statusId: nat, armOffset: int): Result<bool, ScanError>
  {
    SearchBack(file, sync, headerSize, statusId, armOffset, |file|, |file|, RaiseOnSeekPastEnd)
  }

  /** The same search with a skip past the end of the file read as the end of the segment. */
  function ReverseSearchForArmCorrected(file: seq<byte>, sync: seq<byte>, headerSize: nat, statusId: nat, armOffset: int): Result<bool, ScanError>
  {
    SearchBack(file, sync, headerSize, statusId, armOffset, |file|, |file|, StopOnSeekPastEnd)
  }

  /**
   One outer iteration: find the last sync marker below `offset`, scan from
   just after it (from the end of the header when there is none) up to
   `searchedTo`, decide if the segment held a status message, otherwise move
   to the segment before.
   */
  function SearchBack(file: seq<byte>, sync: seq<byte>, headerSize: nat, statusId: nat, armOffset: int,
                      offset: int, searchedTo: int, rule: SeekRule): Result<bool, ScanError>
    requires offset <= |file| && searchedTo <= |file|
    decreases offset + 1
  {
    if offset < headerSize then Err(NoVehicleStatus)
    else
      var found := RFind(file, sync, offset);
      var start := if found == -1 then headerSize else found;
      var scanFrom := if found == -1 then headerSize else found + |sync|;
      match ScanSegment(file, scanFrom, searchedTo, statusId, armOffset, None, rule)
      case Err(e) => Err(e)
      case Ok(Some(armed)) => Ok(armed)
      case Ok(None) => SearchBack(file, sync, headerSize, statusId, armOffset, start - 1, start, rule)
  }

  /**
   `true` only when some status message in the file has a nonzero arming
   byte; `false` only when some status message has a zero one.
   */
  ghost predicate VerdictJustified(file: seq<byte>, statusId: nat, armOffset: int, r: Result<bool, ScanError>) {
    && (r == Ok(true) ==> exists p :: ArmedAt(file, p, statusId, armOffset))
    && (r == Ok(false) ==> exists p :: DisarmedAt(file, p, statusId, armOffset))
  }

  lemma {:induction false} SearchBackSound(file: seq<byte>, sync: seq<byte>, headerSize: nat, statusId: nat, armOffset: int,
                                          offset: int, searchedTo: int, rule: SeekRule)
    requires offset <= |file| && searchedTo <= |file|
    ensures VerdictJustified(file, statusId, armOffset, SearchBack(file, sync, headerSize, statusId, armOffset, offset, searchedTo, rule))
    decreases offset + 1
  {
    if offset >= headerSize {
      var start, scanFrom := SearchBackStep(file, sync, headerSize, statusId, armOffset, offset, searchedTo, rule);
      SegmentVerdictJustified(file, scanFrom, searchedTo, statusId, armOffset, rule);
      SearchBackSound(file, sync, headerSize, statusId, armOffset, start - 1, start, rule);
    }
  }

  lemma SegmentVerdictJustified(file: seq<byte>, scanFrom: nat, searchedTo: int, statusId: nat, armOffset: int, rule: SeekRule)
    requires scanFrom <= |file|
    ensures var seg := ScanSegment(file, scanFrom, searchedTo, statusId, armOffset, None, rule);
            seg.Ok? && seg.value.Some? ==> VerdictJustified(file, statusId, armOffset, Ok(seg.value.value))
  {
    ScanSegmentSound(file, scanFrom, searchedTo, statusId, armOffset, None, rule);
  }

  lemma SearchBackUnfold(file: seq<byte>, sync: seq<byte>, headerSize: nat, statusId: nat, armOffset: int,
                          offset: int, searchedTo: int, rule: SeekRule)
    requires offset <= |file| && searchedTo <= |file| && offset >= headerSize
    ensures var found := RFind(file, sync, offset);
            var start := if found == -1 then headerSize else found;
            var scanFrom := if found == -1 then headerSize else found + |sync|;
            var seg := ScanSegment(file, scanFrom, searchedTo, statusId, armOffset, None, rule);
            SearchBack(file, sync, headerSize, statusId, armOffset, offset, searchedTo, rule)
            == match seg
               case Err(e) => Err(e)
               case Ok(Some(armed)) => Ok(armed)
               case Ok(None) => SearchBack(file, sync, headerSize, statusId, armOffset, start - 1, start, rule)
  {}

  /** A segment's outcome, followed by the search of the segment before when it gave no verdict. */
  function AfterSegment(seg: Result<Option<bool>, ScanError>, before: Result<bool, ScanError>): Result<bool, ScanError> {
    match seg
    case Err(e) => Err(e)
    case Ok(Some(armed)) => Ok(armed)
    case Ok(None) => before
  }

  /** One outer iteration, with where the segment starts and where its scan begins. */
  lemma SearchBackStep(file: seq<byte>, sync: seq<byte>, headerSize: nat, statusId: nat, armOffset: int,
                       offset: int, searchedTo: int, rule: SeekRule) returns (start: int, scanFrom: nat)
    requires offset <= |file| && searchedTo <= |file| && offset >= headerSize
    ensures start <= offset && scanFrom <= |file|
    ensures start == (if RFind(file, sync, offset) == -1 then headerSize else RFind(file, sync, offset))
    ensures scanFrom == (if RFind(file, sync, offset) == -1 then headerSize else RFind(file, sync, offset) + |sync|)
    ensures SearchBack(file, sync, headerSize, statusId, armOffset, offset, searchedTo, rule)
         == AfterSegment(ScanSegment(file, scanFrom, searchedTo, statusId, armOffset, None, rule),
                         SearchBack(file, sync, headerSize, statusId, armOffset, start - 1, start, rule))
  {
    var found := RFind(file, sync, offset);
    start := if found == -1 then headerSize else found;
    scanFrom := if found == -1 then headerSize else found + |sync|;
    SearchBackUnfold(file, sync, headerSize, statusId, armOffset, offset, searchedTo, rule);
  }

  /**
   An outer iteration that finds a marker: the segment behind it is scanned
   first, then the search goes on up to that marker.
   */
  lemma StepAfterMarker(file: seq<byte>, sync: seq<byte>, headerSize: nat, statusId: nat, armOffset: int,
                        offset: int, searchedTo: int, rule: SeekRule)
    requires headerSize <= offset <= |file| && searchedTo <= |file|
    requires RFind(file, sync, offset) != -1
    ensures SearchBack(file, sync, headerSize, statusId, armOffset, offset, searchedTo, rule)
            == AfterSegment(ScanSegment(file, RFind(file, sync, offset) + |sync|, searchedTo, statusId, armOffset, None, rule),
                            SearchBack(file, sync, headerSize, statusId, armOffset, RFind(file, sync, offset) - 1, RFind(file, sync, offset), rule))
  {}

  /**
   An outer iteration that finds no marker: the segment after the header
   is scanned, and the search ends there.
   */
  lemma StepWithoutMarker(file: seq<byte>, sync: seq<byte>, headerSize: nat, statusId: nat, armOffset: int,
                          offset: int, searchedTo: int, rule: SeekRule)
    requires headerSize <= offset <= |file| && searchedTo <= |file|
    requires RFind(file, sync, offset) == -1
    ensures SearchBack(file, sync, headerSize, statusId, armOffset, offset, searchedTo, rule)
            == AfterSegment(ScanSegment(file, headerSize, searchedTo, statusId, armOffset, None, rule), Err(NoVehicleStatus))
  {}

  /** Rewriting the bounds of a search by equal ones. */
  lemma SameSearch(file: seq<byte>, sync: seq<byte>, headerSize: nat, statusId: nat, armOffset: int,
                   o1: int, s1: int, o2: int, s2: int, rule: SeekRule)
    requires o1 == o2 && s1 == s2 && o1 <= |file| && s1 <= |file|
    ensures SearchBack(file, sync, headerSize, statusId, armOffset, o1, s1, rule)
            == SearchBack(file, sync, headerSize, statusId, armOffset, o2, s2, rule)
  {}

  /** Rewriting the bounds of a scan by equal ones. */
  lemma SameScan(file: seq<byte>, p1: nat, s1: int, p2: nat, s2: int, statusId: nat, armOffset: int, rule: SeekRule)
    requires p1 == p2 && s1 == s2 && p1 <= |file|
    ensures ScanSegment(file, p1, s1, statusId, armOffset, None, rule)
            == ScanSegment(file, p2, s2, statusId, armOffset, None, rule)
  {}

  // ---------------------------------------------------------------------
  // check_if_log_was_armed
  // ---------------------------------------------------------------------

  const MaxSearchLength := 200000
  const VehicleStatus := "vehicle_status"
  const ArmingReasonField := "latest_arming_reason"

  /** The subscription search limit: the file length, or the smaller of it and the given limit. */
  function SearchLimit(fileLength: nat, maxSearchLen: Option<int>): int {
    match maxSearchLen
    case None => fileLength
    case Some(m) => if m < fileLength then m else fileLength
  }

  /**
   Whether the log was armed. The format table is what the header parser
   read; `sizes`, `headerSize` and `sync` are the parser's constants. The
   search limit defaults to `MaxSearchLength`; `None` searches the whole file.
   */
  function CheckIfLogWasArmed(file: seq<byte>, formats: map<string, MessageFormat>, sizes: SizeTable, headerSize: nat,
                              sync: seq<byte>, maxSearchLen: Option<int> := Some(MaxSearchLength)): Result<bool, ScanError>
  {
    if VehicleStatus !in formats then Err(FormatNotFound)
    else
      var limit := SearchLimit(|file|, maxSearchLen);
      match SubscriptionId(file, AsciiBytes(VehicleStatus), limit, headerSize)
      case Err(e) => Err(e)
      case Ok(statusId) =>
        match FindFieldOffset(formats[VehicleStatus], ArmingReasonField, sizes)
        case Err(e) => Err(e)
        case Ok(armOffset) => ReverseSearchForArm(file, sync, headerSize, statusId, armOffset)
  }

  /**
   With the default limit, a file of at most `MaxSearchLength` bytes is
   searched whole, and a longer one gets a verdict only from a subscription
   of vehicle_status that starts before byte `MaxSearchLength`.
   */
  lemma DefaultSearchLimit(file: seq<byte>, formats: map<string, MessageFormat>, sizes: SizeTable, headerSize: nat, sync: seq<byte>)
    ensures |file| <= MaxSearchLength ==>
              CheckIfLogWasArmed(file, formats, sizes, headerSize, sync) == CheckIfLogWasArmed(file, formats, sizes, headerSize, sync, None)
    ensures |file| > MaxSearchLength && CheckIfLogWasArmed(file, formats, sizes, headerSize, sync).Ok? ==>
              exists p :: headerSize <= p < MaxSearchLength && SubscriptionAt(file, p, AsciiBytes(VehicleStatus))
  {
    if |file| > MaxSearchLength && CheckIfLogWasArmed(file, formats, sizes, headerSize, sync).Ok? {
      SubscriptionIdSound(file, AsciiBytes(VehicleStatus), MaxSearchLength, headerSize);
    }
  }

  /**
   Clamping the limit to the file length is the same as searching with the
   limit as given, and searching without a limit is the same as searching
   with any limit at least the file length.
   */
  lemma SearchLimitClamps(file: seq<byte>, name: seq<byte>, headerSize: nat, m: int)
    ensures SubscriptionId(file, name, SearchLimit(|file|, Some(m)), headerSize) == SubscriptionId(file, name, m, headerSize)
    ensures m >= |file| ==> SubscriptionId(file, name, SearchLimit(|file|, None), headerSize) == SubscriptionId(file, name, m, headerSize)
  {
    if m >= |file| && headerSize <= |file| {
      LimitBeyondFileIsFileLength(file, name, m, headerSize);
    }
  }

  /**
   A `true` verdict means: the format of vehicle_status is known, the log
   subscribes vehicle_status before the search limit under some id, the
   arming-reason field is found in the format, and a status message with
   that id carries a nonzero byte at the field's offset.
   */
  lemma CheckIfLogWasArmedSound(file: seq<byte>, formats: map<string, MessageFormat>, sizes: SizeTable, headerSize: nat,
                                sync: seq<byte>, maxSearchLen: Option<int>)
    requires CheckIfLogWasArmed(file, formats, sizes, headerSize, sync, maxSearchLen) == Ok(true)
    ensures VehicleStatus in formats
    ensures exists p :: headerSize <= p < SearchLimit(|file|, maxSearchLen) && SubscriptionAt(file, p, AsciiBytes(VehicleStatus))
    ensures exists armOffset :: FindFieldOffset(formats[VehicleStatus], ArmingReasonField, sizes) == Ok(armOffset)
    ensures SubscriptionId(file, AsciiBytes(VehicleStatus), SearchLimit(|file|, maxSearchLen), headerSize).Ok?
    ensures var statusId := SubscriptionId(file, AsciiBytes(VehicleStatus), SearchLimit(|file|, maxSearchLen), headerSize).value;
            var armOffset := FindFieldOffset(formats[VehicleStatus], ArmingReasonField, sizes).value;
            exists q :: ArmedAt(file, q, statusId, armOffset)
  {
    var limit := SearchLimit(|file|, maxSearchLen);
    var name := AsciiBytes(VehicleStatus);
    SubscriptionIdSound(file, name, limit, headerSize);
    var statusId := SubscriptionId(file, name, limit, headerSize).value;
    var armOffset := FindFieldOffset(formats[VehicleStatus], ArmingReasonField, sizes).value;
    SearchBackSound(file, sync, headerSize, statusId, armOffset, |file|, |file|, RaiseOnSeekPastEnd);
  }
}
