/**
 The reverse arm search on a log with any number of sync markers. After
 the header the log holds segments of messages, with a marker message
 between each segment and the next; the marker bytes occur nowhere else.
 The search answers with the verdict of the latest segment that holds a
 status message, and with the "no vehicle_status" error when none does,
 under either reading of a skip past the end of the file.
 */
module ArmSegments {
  import opened Wrappers
  import opened Stream
  import opened ArmSearch
  import opened ArmVerdict

  /** The header size, the sync marker, and the segments in file order. */
  datatype Layout = Layout(headerSize: nat, sync: seq<byte>, segs: seq<seq<Message>>)

  predicate SegmentsEncodable(l: Layout) {
    forall k :: 0 <= k < |l.segs| ==> Encodable(l.segs[k])
  }

  /** Where segment `k` begins: after the header, and after each earlier segment and the marker message behind it. */
  function Start(l: Layout, k: nat): nat
    requires SegmentsEncodable(l) && k < |l.segs|
  {
    if k == 0 then l.headerSize
    else Start(l, k - 1) + |Encode(l.segs[k - 1])| + MessageHeaderSize + |l.sync|
  }

  /** Where segment `k` ends, and the marker message after it, if any, begins. */
  function End(l: Layout, k: nat): nat
    requires SegmentsEncodable(l) && k < |l.segs|
  {
    Start(l, k) + |Encode(l.segs[k])|
  }

  /** Where the marker bytes after segment `k` sit: behind the marker message's header. */
  function MarkerBytes(l: Layout, k: nat): nat
    requires SegmentsEncodable(l) && k < |l.segs|
  {
    End(l, k) + MessageHeaderSize
  }

  /** Segment `k` is held at its start. */
  predicate SegmentHeld(file: seq<byte>, l: Layout, k: nat)
    requires SegmentsEncodable(l) && k < |l.segs|
  {
    HoldsAt(file, Start(l, k), Encode(l.segs[k]))
  }

  /** A marker message is held right after segment `k`. */
  predicate MarkerHeld(file: seq<byte>, l: Layout, k: nat)
    requires SegmentsEncodable(l) && k < |l.segs| && |l.sync| < 65536
  {
    HoldsAt(file, End(l, k), EncodeMessage(Marker(l.sync)))
  }

  /** Marker bytes at `i`, if any, are those of a marker message. */
  ghost predicate OnlyMarkerAt(file: seq<byte>, l: Layout, i: int)
    requires SegmentsEncodable(l)
  {
    SyncAt(file, l.sync, i) ==> exists k :: 0 <= k < |l.segs| - 1 && i == MarkerBytes(l, k)
  }

  /**
   The file is laid out as `l` says: the header, then segment 0, a marker
   message, segment 1, ..., the last segment, and nothing after; the
   marker bytes occur only inside the marker messages.
   */
  ghost predicate SegmentedLog(file: seq<byte>, l: Layout, statusId: nat, armOffset: int) {
    && |l.segs| >= 1
    && 2 <= |l.sync| < 65536
    && (forall k :: 0 <= k < |l.segs| ==> WellFramed(l.segs[k], statusId, armOffset))
    && (forall k :: 0 <= k < |l.segs| ==> SegmentHeld(file, l, k))
    && (forall k :: 0 <= k < |l.segs| - 1 ==> MarkerHeld(file, l, k))
    && |file| == End(l, |l.segs| - 1)
    && (forall i :: OnlyMarkerAt(file, l, i))
  }

  /** The reference verdict of segment `k`: over its messages, all of which start before its end. */
  ghost function SegVerdict(l: Layout, statusId: nat, armOffset: int, k: nat): Option<bool>
    requires SegmentsEncodable(l) && k < |l.segs|
  {
    SegmentVerdict(l.segs[k], Starts(l.segs[k], Start(l, k)), End(l, k), statusId, armOffset)
  }

  /** The reference verdicts of all segments, in file order. */
  ghost function Verdicts(l: Layout, statusId: nat, armOffset: int): (vs: seq<Option<bool>>)
    requires SegmentsEncodable(l)
    ensures |vs| == |l.segs|
  {
    seq(|l.segs|, k requires 0 <= k < |l.segs| => SegVerdict(l, statusId, armOffset, k))
  }

  /** The verdict of the latest segment that has one, folding from the first. */
  function LatestOf(vs: seq<Option<bool>>): Option<bool> {
    if |vs| == 0 then None else Latest(LatestOf(vs[..|vs| - 1]), vs[|vs| - 1])
  }

  /** Where the outer loop stands when it is about to look for the marker before segment `k`. */
  function Offset(l: Layout, k: nat): int
    requires SegmentsEncodable(l) && k < |l.segs|
  {
    if k == |l.segs| - 1 then End(l, k) else MarkerBytes(l, k) - 1
  }

  /** How far the scan of segment `k` goes: the end of the file, or the marker bytes after it. */
  function SearchedTo(l: Layout, k: nat): int
    requires SegmentsEncodable(l) && k < |l.segs|
  {
    if k == |l.segs| - 1 then End(l, k) else MarkerBytes(l, k)
  }

  // ---------------------------------------------------------------------
  // Positions
  // ---------------------------------------------------------------------

  /** Segments begin in file order. */
  lemma {:induction false} StartGrows(l: Layout, j: nat, k: nat)
    requires SegmentsEncodable(l) && j <= k < |l.segs|
    ensures Start(l, j) <= Start(l, k)
    decreases k
  {
    if j < k {
      StartGrows(l, j, k - 1);
    }
  }

  /** A marker before segment `k` ends before it begins, and markers come in file order. */
  lemma MarkerOrder(l: Layout, j: nat, k: nat)
    requires SegmentsEncodable(l) && j < k < |l.segs|
    ensures MarkerBytes(l, j) + |l.sync| <= Start(l, k)
    ensures MarkerBytes(l, j) < MarkerBytes(l, k)
  {
    StartGrows(l, j + 1, k);
  }

  /** A marker message holds the marker bytes behind its header. */
  lemma MarkerBytesHeld(file: seq<byte>, pos: int, sync: seq<byte>)
    requires |sync| < 65536 && HoldsAt(file, pos, EncodeMessage(Marker(sync)))
    ensures SyncAt(file, sync, pos + MessageHeaderSize)
  {
    var bytes := EncodeMessage(Marker(sync));
    forall i | 0 <= i < |sync| ensures file[pos + MessageHeaderSize + i] == sync[i] {
      assert file[pos + (MessageHeaderSize + i)] == bytes[MessageHeaderSize + i];
    }
    assert file[pos + MessageHeaderSize .. pos + MessageHeaderSize + |sync|] == sync;
  }

  /** The markers before segment `k` lie at or before the one right in front of it, and below its start. */
  lemma MarkersBefore(l: Layout, k: nat)
    requires SegmentsEncodable(l) && 0 < k < |l.segs|
    ensures MarkerBytes(l, k - 1) + |l.sync| == Start(l, k)
    ensures forall j :: 0 <= j < k ==> MarkerBytes(l, j) <= MarkerBytes(l, k - 1)
  {
    forall j | 0 <= j < k - 1 ensures MarkerBytes(l, j) <= MarkerBytes(l, k - 1) {
      MarkerOrder(l, j, k - 1);
    }
  }

  /** The markers from segment `k` on lie at or after the one right behind it. */
  lemma MarkersFrom(l: Layout, k: nat)
    requires SegmentsEncodable(l) && k < |l.segs|
    ensures forall j :: k <= j < |l.segs| ==> MarkerBytes(l, k) <= MarkerBytes(l, j)
  {
    forall j | k < j < |l.segs| ensures MarkerBytes(l, k) <= MarkerBytes(l, j) {
      MarkerOrder(l, k, j);
    }
  }

  /** Segment `k` starts after the header, and where the loop stands there is past its start. */
  lemma OffsetBounds(file: seq<byte>, l: Layout, statusId: nat, armOffset: int, k: nat)
    requires SegmentedLog(file, l, statusId, armOffset) && k < |l.segs|
    ensures l.headerSize <= Start(l, k) <= Offset(l, k) < SearchedTo(l, k) + |l.sync| && SearchedTo(l, k) <= |file|
  {
    StartGrows(l, 0, k);
    StartGrows(l, k, |l.segs| - 1);
    if k < |l.segs| - 1 {
      MarkerOrder(l, k, |l.segs| - 1);
    }
  }

  /**
   Looking for the marker before segment `k` finds the one after segment
   `k - 1`, and none for the first segment.
   */
  lemma RFindInLayout(file: seq<byte>, l: Layout, statusId: nat, armOffset: int, k: nat)
    requires SegmentedLog(file, l, statusId, armOffset) && k < |l.segs|
    ensures l.headerSize <= Start(l, k) <= Offset(l, k) < SearchedTo(l, k) + |l.sync| && SearchedTo(l, k) <= |file|
    ensures RFind(file, l.sync, Offset(l, k)) == if k == 0 then -1 else MarkerBytes(l, k - 1)
  {
    OffsetBounds(file, l, statusId, armOffset, k);
    MarkersFrom(l, k);
    assert OnlyMarkerAt(file, l, RFind(file, l.sync, Offset(l, k)));
    if k > 0 {
      MarkersBefore(l, k);
      assert MarkerHeld(file, l, k - 1);
      MarkerBytesHeld(file, End(l, k - 1), l.sync);
    }
  }

  // ---------------------------------------------------------------------
  // Scanning one segment
  // ---------------------------------------------------------------------

  /** Where the scan of a run stops makes no difference once every message of the run starts before it. */
  lemma {:induction false} FoldBeyondEnd(msgs: seq<Message>, pos: int, b1: int, b2: int, statusId: nat, armOffset: int)
    requires Encodable(msgs) && b1 >= pos + |Encode(msgs)| && b2 >= pos + |Encode(msgs)|
    ensures FoldVerdict(msgs, pos, b1, statusId, armOffset) == FoldVerdict(msgs, pos, b2, statusId, armOffset)
    decreases |msgs|
  {
    if |msgs| > 0 {
      EncodedBody(msgs, 0);
      EncodeCons(msgs);
      FoldStep(msgs, pos, b1, statusId, armOffset);
      FoldStep(msgs, pos, b2, statusId, armOffset);
      FoldBeyondEnd(msgs[1..], pos + MessageHeaderSize + |msgs[0].payload|, b1, b2, statusId, armOffset);
    }
  }

  /** The last segment is scanned to the end of the file. */
  lemma LastSegmentScan(file: seq<byte>, l: Layout, statusId: nat, armOffset: int, rule: SeekRule)
    requires SegmentedLog(file, l, statusId, armOffset)
    ensures var k := |l.segs| - 1;
            Start(l, k) <= |file|
            && ScanSegment(file, Start(l, k), SearchedTo(l, k), statusId, armOffset, None, rule)
               == Ok(SegVerdict(l, statusId, armOffset, k))
  {
    var k := |l.segs| - 1;
    assert SegmentHeld(file, l, k);
    ScanOverSegment(file, Start(l, k), End(l, k), l.segs[k], statusId, armOffset, None, rule);
    FoldVerdictIsSegmentVerdict(l.segs[k], Start(l, k), End(l, k), statusId, armOffset);
  }

  /** A segment followed by a marker is scanned up to the marker bytes: the marker message adds nothing. */
  lemma InnerSegmentScan(file: seq<byte>, l: Layout, statusId: nat, armOffset: int, k: nat, rule: SeekRule)
    requires SegmentedLog(file, l, statusId, armOffset) && k < |l.segs| - 1
    ensures Start(l, k) <= |file|
    ensures ScanSegment(file, Start(l, k), SearchedTo(l, k), statusId, armOffset, None, rule)
            == Ok(SegVerdict(l, statusId, armOffset, k))
  {
    var msgs := l.segs[k];
    var s := Marker(l.sync);
    var p := Start(l, k);
    var q := MarkerBytes(l, k);
    assert SegmentHeld(file, l, k) && MarkerHeld(file, l, k);
    EncodeSingle(s);
    HoldsAtJoin(file, p, msgs, [s]);
    assert WellFramed(msgs + [s], statusId, armOffset) by {
      assert forall j :: 0 <= j < |msgs| ==> (msgs + [s])[j] == msgs[j];
      assert (msgs + [s])[|msgs|] == s;
    }
    EncodeAppend(msgs, [s]);
    ScanOverSegment(file, p, q, msgs + [s], statusId, armOffset, None, rule);
    FoldAppendWithoutStatus(msgs, [s], p, q, statusId, armOffset);
    FoldBeyondEnd(msgs, p, q, End(l, k), statusId, armOffset);
    FoldVerdictIsSegmentVerdict(msgs, p, End(l, k), statusId, armOffset);
  }

  /** Every segment's scan yields its reference verdict. */
  lemma SegmentScan(file: seq<byte>, l: Layout, statusId: nat, armOffset: int, k: nat, rule: SeekRule)
    requires SegmentedLog(file, l, statusId, armOffset) && k < |l.segs|
    ensures Start(l, k) <= |file|
    ensures ScanSegment(file, Start(l, k), SearchedTo(l, k), statusId, armOffset, None, rule)
            == Ok(SegVerdict(l, statusId, armOffset, k))
  {
    if k == |l.segs| - 1 {
      LastSegmentScan(file, l, statusId, armOffset, rule);
    } else {
      InnerSegmentScan(file, l, statusId, armOffset, k, rule);
    }
  }

  // ---------------------------------------------------------------------
  // The outer loop
  // ---------------------------------------------------------------------

  /**
   One outer iteration: where the loop stands, how far its scan goes, and
   where its scan begins.
   */
  datatype Pass = Pass(offset: int, searchedTo: int, scanFrom: nat)

  /**
   Pass `k` scans to verdict `vs[k]`; the first pass finds no marker and
   scans from the end of the header, a later one finds the marker that
   ends the pass before it and scans from just after that marker.
   */
  predicate Linked(file: seq<byte>, sync: seq<byte>, headerSize: nat, statusId: nat, armOffset: int, rule: SeekRule,
                   ps: seq<Pass>, vs: seq<Option<bool>>, k: nat)
    requires |ps| == |vs| && k < |ps|
  {
    && headerSize <= ps[k].offset <= |file| && ps[k].searchedTo <= |file| && ps[k].scanFrom <= |file|
    && ScanSegment(file, ps[k].scanFrom, ps[k].searchedTo, statusId, armOffset, None, rule) == Ok(vs[k])
    && if k == 0 then
         RFind(file, sync, ps[0].offset) == -1 && ps[0].scanFrom == headerSize
       else
         && 0 <= ps[k - 1].searchedTo == RFind(file, sync, ps[k].offset)
         && ps[k - 1].offset == ps[k - 1].searchedTo - 1
         && ps[k].scanFrom == ps[k - 1].searchedTo + |sync|
  }

  /** The answer over the verdicts up to `k`: verdict `k` if it has one, otherwise the answer over those before. */
  lemma AnswerStep(vs: seq<Option<bool>>, k: nat)
    requires k < |vs|
    ensures Answer(LatestOf(vs[..k + 1]))
            == AfterSegment(Ok(vs[k]), if k == 0 then Err(NoVehicleStatus) else Answer(LatestOf(vs[..k])))
  {
    assert vs[..k + 1][..k] == vs[..k];
  }

  /** A later pass: its verdict, if it has one, is the answer, otherwise the search goes on up to the marker it found. */
  lemma PassAfterMarker(file: seq<byte>, sync: seq<byte>, headerSize: nat, statusId: nat, armOffset: int,
                        rule: SeekRule, offset: int, searchedTo: int, marker: nat, v: Option<bool>)
    requires headerSize <= offset <= |file| && searchedTo <= |file|
    requires RFind(file, sync, offset) == marker && marker + |sync| <= |file|
    requires ScanSegment(file, marker + |sync|, searchedTo, statusId, armOffset, None, rule) == Ok(v)
    ensures SearchBack(file, sync, headerSize, statusId, armOffset, offset, searchedTo, rule)
            == AfterSegment(Ok(v), SearchBack(file, sync, headerSize, statusId, armOffset, marker - 1, marker, rule))
  {
    StepAfterMarker(file, sync, headerSize, statusId, armOffset, offset, searchedTo, rule);
    var found := RFind(file, sync, offset);
    SameSearch(file, sync, headerSize, statusId, armOffset, found - 1, found, marker - 1, marker, rule);
    assert found + |sync| == marker + |sync|;
  }

  /** A later pass, linked to the pass before it. */
  lemma LaterPass(file: seq<byte>, sync: seq<byte>, headerSize: nat, statusId: nat, armOffset: int,
                  rule: SeekRule, p: Pass, prev: Pass, v: Option<bool>)
    requires headerSize <= p.offset <= |file| && p.searchedTo <= |file| && p.scanFrom <= |file|
    requires ScanSegment(file, p.scanFrom, p.searchedTo, statusId, armOffset, None, rule) == Ok(v)
    requires 0 <= prev.searchedTo == RFind(file, sync, p.offset) && prev.offset == prev.searchedTo - 1
    requires p.scanFrom == prev.searchedTo + |sync|
    ensures prev.offset <= |file| && prev.searchedTo <= |file|
    ensures SearchBack(file, sync, headerSize, statusId, armOffset, p.offset, p.searchedTo, rule)
            == AfterSegment(Ok(v), SearchBack(file, sync, headerSize, statusId, armOffset, prev.offset, prev.searchedTo, rule))
  {
    var marker := prev.searchedTo;
    SameScan(file, p.scanFrom, p.searchedTo, marker + |sync|, p.searchedTo, statusId, armOffset, rule);
    PassAfterMarker(file, sync, headerSize, statusId, armOffset, rule, p.offset, p.searchedTo, marker, v);
    SameSearch(file, sync, headerSize, statusId, armOffset, marker - 1, marker, prev.offset, prev.searchedTo, rule);
  }

  /** The first pass: its verdict, if it has one, is the answer, otherwise the "no vehicle_status" error. */
  lemma FirstPass(file: seq<byte>, sync: seq<byte>, headerSize: nat, statusId: nat, armOffset: int,
                  rule: SeekRule, p: Pass, v: Option<bool>)
    requires headerSize <= p.offset <= |file| && p.searchedTo <= |file| && p.scanFrom <= |file|
    requires ScanSegment(file, p.scanFrom, p.searchedTo, statusId, armOffset, None, rule) == Ok(v)
    requires RFind(file, sync, p.offset) == -1 && p.scanFrom == headerSize
    ensures SearchBack(file, sync, headerSize, statusId, armOffset, p.offset, p.searchedTo, rule)
            == AfterSegment(Ok(v), Err(NoVehicleStatus))
  {
    StepWithoutMarker(file, sync, headerSize, statusId, armOffset, p.offset, p.searchedTo, rule);
    SameScan(file, headerSize, p.searchedTo, p.scanFrom, p.searchedTo, statusId, armOffset, rule);
  }

  /** Over linked passes up to `k`, the search from pass `k` answers with the latest verdict among them. */
  lemma {:induction false} SearchAlongPasses(file: seq<byte>, sync: seq<byte>, headerSize: nat, statusId: nat, armOffset: int,
                                            rule: SeekRule, ps: seq<Pass>, vs: seq<Option<bool>>, k: nat)
    requires |ps| == |vs| && k < |ps|
    requires forall j :: 0 <= j <= k ==> Linked(file, sync, headerSize, statusId, armOffset, rule, ps, vs, j)
    ensures ps[k].offset <= |file| && ps[k].searchedTo <= |file|
    ensures SearchBack(file, sync, headerSize, statusId, armOffset, ps[k].offset, ps[k].searchedTo, rule)
            == Answer(LatestOf(vs[..k + 1]))
    decreases k
  {
    assert Linked(file, sync, headerSize, statusId, armOffset, rule, ps, vs, k);
    AnswerStep(vs, k);
    if k == 0 {
      FirstPass(file, sync, headerSize, statusId, armOffset, rule, ps[0], vs[0]);
    } else {
      LaterPass(file, sync, headerSize, statusId, armOffset, rule, ps[k], ps[k - 1], vs[k]);
      SearchAlongPasses(file, sync, headerSize, statusId, armOffset, rule, ps, vs, k - 1);
    }
  }

  /** When the last pass starts at the end of the file, the whole search answers with the latest verdict. */
  lemma PassesDecide(file: seq<byte>, sync: seq<byte>, headerSize: nat, statusId: nat, armOffset: int,
                     rule: SeekRule, ps: seq<Pass>, vs: seq<Option<bool>>)
    requires |ps| == |vs| >= 1
    requires forall j :: 0 <= j < |ps| ==> Linked(file, sync, headerSize, statusId, armOffset, rule, ps, vs, j)
    requires ps[|ps| - 1].offset == |file| && ps[|ps| - 1].searchedTo == |file|
    ensures SearchBack(file, sync, headerSize, statusId, armOffset, |file|, |file|, rule) == Answer(LatestOf(vs))
  {
    var n := |ps|;
    SearchAlongPasses(file, sync, headerSize, statusId, armOffset, rule, ps, vs, n - 1);
    SameSearch(file, sync, headerSize, statusId, armOffset, ps[n - 1].offset, ps[n - 1].searchedTo, |file|, |file|, rule);
    assert vs[..n] == vs;
  }

  /** The passes of the outer loop over layout `l`, one per segment. */
  function Passes(l: Layout): (ps: seq<Pass>)
    requires SegmentsEncodable(l)
    ensures |ps| == |l.segs|
  {
    seq(|l.segs|, k requires 0 <= k < |l.segs| => Pass(Offset(l, k), SearchedTo(l, k), Start(l, k)))
  }

  /** Pass `k` over the layout, field by field. */
  lemma PassAt(l: Layout, k: nat)
    requires SegmentsEncodable(l) && k < |l.segs|
    ensures Passes(l)[k] == Pass(Offset(l, k), SearchedTo(l, k), Start(l, k))
  {}

  /**
   The loop standing at segment `k` finds the marker that ends segment
   `k - 1` (none for the first segment) and scans segment `k` to its
   reference verdict.
   */
  ghost predicate LayoutLinked(file: seq<byte>, l: Layout, statusId: nat, armOffset: int, rule: SeekRule, k: nat)
    requires SegmentsEncodable(l) && k < |l.segs|
  {
    && l.headerSize <= Offset(l, k) <= |file| && SearchedTo(l, k) <= |file| && Start(l, k) <= |file|
    && ScanSegment(file, Start(l, k), SearchedTo(l, k), statusId, armOffset, None, rule) == Ok(SegVerdict(l, statusId, armOffset, k))
    && (k == 0 ==> RFind(file, l.sync, Offset(l, 0)) == -1 && Start(l, 0) == l.headerSize)
    && (k > 0 ==> && 0 <= SearchedTo(l, k - 1) == RFind(file, l.sync, Offset(l, k))
                  && Offset(l, k - 1) == SearchedTo(l, k - 1) - 1
                  && Start(l, k) == SearchedTo(l, k - 1) + |l.sync|)
  }

  /** On a log laid out as `l`, the loop standing at every segment is linked as the layout says. */
  lemma LayoutLink(file: seq<byte>, l: Layout, statusId: nat, armOffset: int, rule: SeekRule, k: nat)
    requires SegmentedLog(file, l, statusId, armOffset) && k < |l.segs|
    ensures LayoutLinked(file, l, statusId, armOffset, rule, k)
  {
    RFindInLayout(file, l, statusId, armOffset, k);
    SegmentScan(file, l, statusId, armOffset, k, rule);
    if k > 0 {
      MarkersBefore(l, k);
    }
  }

  /** Pass `k` is linked once its own fields and those of the pass before it are known. */
  lemma LinkedFrom(file: seq<byte>, sync: seq<byte>, headerSize: nat, statusId: nat, armOffset: int, rule: SeekRule,
                   ps: seq<Pass>, vs: seq<Option<bool>>, k: nat, p: Pass, prev: Pass, v: Option<bool>)
    requires |ps| == |vs| && k < |ps| && ps[k] == p && vs[k] == v && (k > 0 ==> ps[k - 1] == prev)
    requires headerSize <= p.offset <= |file| && p.searchedTo <= |file| && p.scanFrom <= |file|
    requires ScanSegment(file, p.scanFrom, p.searchedTo, statusId, armOffset, None, rule) == Ok(v)
    requires k == 0 ==> RFind(file, sync, p.offset) == -1 && p.scanFrom == headerSize
    requires k > 0 ==> && 0 <= prev.searchedTo == RFind(file, sync, p.offset)
                       && prev.offset == prev.searchedTo - 1
                       && p.scanFrom == prev.searchedTo + |sync|
    ensures Linked(file, sync, headerSize, statusId, armOffset, rule, ps, vs, k)
  {}

  /** Where the layout links segment `k`, pass `k` over the layout is linked to the one before. */
  lemma PassLinked(file: seq<byte>, l: Layout, statusId: nat, armOffset: int, rule: SeekRule, k: nat)
    requires SegmentsEncodable(l) && k < |l.segs| && LayoutLinked(file, l, statusId, armOffset, rule, k)
    ensures Linked(file, l.sync, l.headerSize, statusId, armOffset, rule, Passes(l), Verdicts(l, statusId, armOffset), k)
  {
    PassAt(l, k);
    var prev := if k == 0 then Pass(0, 0, 0) else Pass(Offset(l, k - 1), SearchedTo(l, k - 1), Start(l, k - 1));
    if k > 0 {
      PassAt(l, k - 1);
    }
    LinkedFrom(file, l.sync, l.headerSize, statusId, armOffset, rule, Passes(l), Verdicts(l, statusId, armOffset), k,
               Pass(Offset(l, k), SearchedTo(l, k), Start(l, k)), prev, SegVerdict(l, statusId, armOffset, k));
  }

  /** With no verdict anywhere, the fold has none. */
  lemma {:induction false} LatestOfNone(vs: seq<Option<bool>>)
    requires forall k :: 0 <= k < |vs| ==> vs[k].None?
    ensures LatestOf(vs) == None
    decreases |vs|
  {
    if |vs| > 0 {
      var init := vs[..|vs| - 1];
      assert forall j :: 0 <= j < |init| ==> init[j] == vs[j];
      LatestOfNone(init);
    }
  }

  /** The fold answers with verdict `k` when every later one is "none". */
  lemma {:induction false} LatestOfLast(vs: seq<Option<bool>>, k: nat)
    requires k < |vs| && vs[k].Some?
    requires forall j :: k < j < |vs| ==> vs[j].None?
    ensures LatestOf(vs) == vs[k]
    decreases |vs|
  {
    if k < |vs| - 1 {
      var init := vs[..|vs| - 1];
      assert forall j :: k < j < |init| ==> init[j] == vs[j];
      LatestOfLast(init, k);
    }
  }

  /**
   On a log with any number of sync markers, the search as written and
   the corrected one give the same answer: the verdict of the last segment
   holding a status message — `true` when one of its status messages has a
   nonzero arming byte, `false` when all of them have a zero one — and the
   "no vehicle_status" error when no segment holds a status message.
   */
  lemma LatestStatusSegmentDecides(file: seq<byte>, l: Layout, statusId: nat, armOffset: int)
    requires SegmentedLog(file, l, statusId, armOffset)
    ensures var vs := Verdicts(l, statusId, armOffset);
            var r := ReverseSearchForArm(file, l.sync, l.headerSize, statusId, armOffset);
            && (forall k :: 0 <= k < |vs| && vs[k].Some? && (forall j :: k < j < |vs| ==> vs[j].None?) ==> r == Ok(vs[k].value))
            && ((forall k :: 0 <= k < |vs| ==> vs[k].None?) ==> r == Err(NoVehicleStatus))
    ensures ReverseSearchForArmCorrected(file, l.sync, l.headerSize, statusId, armOffset)
            == ReverseSearchForArm(file, l.sync, l.headerSize, statusId, armOffset)
  {
    var vs := Verdicts(l, statusId, armOffset);
    var ps := Passes(l);
    forall j | 0 <= j < |ps|
      ensures Linked(file, l.sync, l.headerSize, statusId, armOffset, RaiseOnSeekPastEnd, ps, vs, j)
      ensures Linked(file, l.sync, l.headerSize, statusId, armOffset, StopOnSeekPastEnd, ps, vs, j)
    {
      LayoutLink(file, l, statusId, armOffset, RaiseOnSeekPastEnd, j);
      PassLinked(file, l, statusId, armOffset, RaiseOnSeekPastEnd, j);
      LayoutLink(file, l, statusId, armOffset, StopOnSeekPastEnd, j);
      PassLinked(file, l, statusId, armOffset, StopOnSeekPastEnd, j);
    }
    PassesDecide(file, l.sync, l.headerSize, statusId, armOffset, RaiseOnSeekPastEnd, ps, vs);
    PassesDecide(file, l.sync, l.headerSize, statusId, armOffset, StopOnSeekPastEnd, ps, vs);
    if forall k :: 0 <= k < |vs| ==> vs[k].None? {
      LatestOfNone(vs);
    }
    forall k | 0 <= k < |vs| && vs[k].Some? && (forall j :: k < j < |vs| ==> vs[j].None?)
      ensures LatestOf(vs) == vs[k]
    {
      LatestOfLast(vs, k);
    }
  }
}
