/**
 `get_subscription_id` of pyulog/utils.py: a forward walk over the message
 stream from the end of the file header, looking for the 'A'
 (add-subscription) message that names a topic.
 */
module Subscription {
  import opened Wrappers
  import opened Stream

  /**
   The message id subscribed for `name`. The file is positioned at the end
   of the header first; a header longer than the file is a seek past its
   end.
   */
  function SubscriptionId(file: seq<byte>, name: seq<byte>, maxSearchLen: int, headerSize: nat): Result<nat, ScanError> {
    if headerSize > |file| then Err(SeekOutOfRange)
    else ScanFrom(file, name, maxSearchLen, headerSize)
  }

  /** The message at `p` is a complete 'A' message whose payload from byte 3 on is `name`. */
  predicate SubscriptionAt(file: seq<byte>, p: int, name: seq<byte>) {
    && 0 <= p && p + MessageHeaderSize <= |file|
    && file[p + 2] == AddLoggedMessage
    && var size := LE16(file[p], file[p + 1]);
       && 3 <= size && p + MessageHeaderSize + size <= |file|
       && file[p + 6 .. p + MessageHeaderSize + size] == name
  }

  /** The little-endian id in payload bytes 1 and 2 of the message at `p`. */
  function SubscribedId(file: seq<byte>, p: int): nat
    requires 0 <= p && p + 6 <= |file|
  {
    LE16(file[p + 4], file[p + 5])
  }

  /**
   One step per message header at `pos`: a non-'A' message is skipped by its
   size (a skip past the end of the file raises); an 'A' message whose
   payload is short raises; a matching one yields its id.
   */
  function ScanFrom(file: seq<byte>, name: seq<byte>, maxSearchLen: int, pos: nat): Result<nat, ScanError>
    requires pos <= |file|
    decreases |file| - pos
  {
    if pos >= maxSearchLen then Err(SubscriptionNotFound)
    else if pos + MessageHeaderSize > |file| then Err(SubscriptionNotFound)
    else
      var size := LE16(file[pos], file[pos + 1]);
      var next := pos + MessageHeaderSize + size;
      if file[pos + 2] != AddLoggedMessage then
        if next > |file| then Err(SeekOutOfRange)
        else ScanFrom(file, name, maxSearchLen, next)
      else if next > |file| || size < 3 then Err(SubscriptionNotFound)
      else if file[pos + 6 .. next] != name then ScanFrom(file, name, maxSearchLen, next)
      else Ok(LE16(file[pos + 4], file[pos + 5]))
  }

  /**
   Whatever id the walk returns is read from a complete 'A' message that
   starts at or after `pos`, before the search limit, and names `name`.
   */
  lemma {:induction false} ScanFromSound(file: seq<byte>, name: seq<byte>, maxSearchLen: int, pos: nat)
    requires pos <= |file| && ScanFrom(file, name, maxSearchLen, pos).Ok?
    ensures exists p :: pos <= p < maxSearchLen && SubscriptionAt(file, p, name)
                        && ScanFrom(file, name, maxSearchLen, pos).value == SubscribedId(file, p)
    decreases |file| - pos
  {
    var size := LE16(file[pos], file[pos + 1]);
    var next := pos + MessageHeaderSize + size;
    if file[pos + 2] != AddLoggedMessage || file[pos + 6 .. next] != name {
      ScanFromSound(file, name, maxSearchLen, next);
    } else {
      assert SubscriptionAt(file, pos, name);
    }
  }

  /** The id `SubscriptionId` returns is that of a matching 'A' message after the header and before the limit. */
  lemma SubscriptionIdSound(file: seq<byte>, name: seq<byte>, maxSearchLen: int, headerSize: nat)
    requires SubscriptionId(file, name, maxSearchLen, headerSize).Ok?
    ensures exists p :: headerSize <= p < maxSearchLen && SubscriptionAt(file, p, name)
                        && SubscriptionId(file, name, maxSearchLen, headerSize).value == SubscribedId(file, p)
  {
    ScanFromSound(file, name, maxSearchLen, headerSize);
  }

  // ---------------------------------------------------------------------
  // Against the reference framing
  // ---------------------------------------------------------------------

  /**
   The walk ends at message `m` starting at `start`: the start is past the
   search limit, or `m` is an 'A' message that is too short or names `name`.
   */
  predicate EndsAt(m: Message, start: int, name: seq<byte>, maxSearchLen: int) {
    || start >= maxSearchLen
    || (m.msgType == AddLoggedMessage && (|m.payload| < 3 || m.payload[3..] == name))
  }

  /** `i` is the first message where the walk ends (`|msgs|` when none). */
  predicate IsFirstEnd(msgs: seq<Message>, starts: seq<int>, name: seq<byte>, maxSearchLen: int, i: int) {
    && |starts| == |msgs|
    && 0 <= i <= |msgs|
    && (i < |msgs| ==> EndsAt(msgs[i], starts[i], name, maxSearchLen))
    && forall j :: 0 <= j < i ==> !EndsAt(msgs[j], starts[j], name, maxSearchLen)
  }

  lemma FirstEndExists(msgs: seq<Message>, starts: seq<int>, name: seq<byte>, maxSearchLen: int)
    requires |starts| == |msgs|
    ensures exists i :: IsFirstEnd(msgs, starts, name, maxSearchLen, i)
  {
    var i := 0;
    while i < |msgs| && !EndsAt(msgs[i], starts[i], name, maxSearchLen)
      invariant 0 <= i <= |msgs|
      invariant forall j :: 0 <= j < i ==> !EndsAt(msgs[j], starts[j], name, maxSearchLen)
    {
      i := i + 1;
    }
    assert IsFirstEnd(msgs, starts, name, maxSearchLen, i);
  }

  /** The id carried by a subscription message's payload. */
  function PayloadId(m: Message): nat
    requires |m.payload| >= 3
  {
    LE16(m.payload[1], m.payload[2])
  }

  /** Expected result of the walk over `msgs` when it first ends at message `i < |msgs|`. */
  function EndResult(msgs: seq<Message>, starts: seq<int>, maxSearchLen: int, i: int): Result<nat, ScanError>
    requires 0 <= i < |msgs| == |starts|
  {
    if starts[i] < maxSearchLen && |msgs[i].payload| >= 3 then Ok(PayloadId(msgs[i]))
    else Err(SubscriptionNotFound)
  }

  /** A first message that does not end the walk is skipped by its framed length. */
  lemma SkipFirst(file: seq<byte>, name: seq<byte>, maxSearchLen: int, pos: nat, msgs: seq<Message>)
    requires Encodable(msgs) && |msgs| > 0 && HoldsAt(file, pos, Encode(msgs))
    requires !EndsAt(msgs[0], pos, name, maxSearchLen)
    ensures pos + MessageHeaderSize + |msgs[0].payload| <= |file|
    ensures ScanFrom(file, name, maxSearchLen, pos)
         == ScanFrom(file, name, maxSearchLen, pos + MessageHeaderSize + |msgs[0].payload|)
  {
    var m := msgs[0];
    ReadFirst(file, pos, msgs);
    if m.msgType == AddLoggedMessage {
      assert file[pos + 6 .. pos + MessageHeaderSize + |m.payload|] == m.payload[3..];
    }
  }

  /** A first message that ends the walk decides its result. */
  lemma EndAtFirst(file: seq<byte>, name: seq<byte>, maxSearchLen: int, pos: nat, msgs: seq<Message>)
    requires Encodable(msgs) && |msgs| > 0 && HoldsAt(file, pos, Encode(msgs))
    requires EndsAt(msgs[0], pos, name, maxSearchLen)
    ensures ScanFrom(file, name, maxSearchLen, pos) == EndResult(msgs, Starts(msgs, pos), maxSearchLen, 0)
  {
    var m := msgs[0];
    var next := pos + MessageHeaderSize + |m.payload|;
    ReadFirst(file, pos, msgs);
    if pos < maxSearchLen && |m.payload| >= 3 {
      assert file[pos + 3 .. next][1] == m.payload[1];
      assert file[pos + 3 .. next][2] == m.payload[2];
      assert file[pos + 6 .. next] == m.payload[3..];
    }
  }

  /**
   Over a well-framed stream of messages the walk yields the id of the first
   'A' message naming `name` that starts before the limit, raises "not
   found" when the limit or a short 'A' message comes first, and carries on
   past the stream when neither happens.
   */
  lemma {:induction false} ScanOverMessages(file: seq<byte>, name: seq<byte>, maxSearchLen: int, pos: nat,
                                           msgs: seq<Message>, i: int)
    requires Encodable(msgs) && HoldsAt(file, pos, Encode(msgs))
    requires IsFirstEnd(msgs, Starts(msgs, pos), name, maxSearchLen, i)
    ensures ScanFrom(file, name, maxSearchLen, pos)
         == if i < |msgs| then EndResult(msgs, Starts(msgs, pos), maxSearchLen, i)
            else ScanFrom(file, name, maxSearchLen, pos + |Encode(msgs)|)
    decreases |msgs|
  {
    if |msgs| > 0 {
      var m := msgs[0];
      var next := pos + MessageHeaderSize + |m.payload|;
      var starts := Starts(msgs, pos);
      var rest := Starts(msgs[1..], next);
      assert starts == [pos] + rest;
      if i == 0 {
        EndAtFirst(file, name, maxSearchLen, pos, msgs);
      } else {
        SkipFirst(file, name, maxSearchLen, pos, msgs);
        ReadFirst(file, pos, msgs);
        assert IsFirstEnd(msgs[1..], rest, name, maxSearchLen, i - 1) by {
          forall j | 0 <= j < i - 1
            ensures !EndsAt(msgs[1..][j], rest[j], name, maxSearchLen)
          {
            assert msgs[1..][j] == msgs[j + 1];
            assert starts[j + 1] == rest[j];
          }
        }
        ScanOverMessages(file, name, maxSearchLen, next, msgs[1..], i - 1);
        assert |Encode(msgs)| == MessageHeaderSize + |m.payload| + |Encode(msgs[1..])|;
        if i < |msgs| {
          assert msgs[1..][i - 1] == msgs[i] && rest[i - 1] == starts[i];
        }
      }
    }
  }

  /**
   For a log laid out as a header of `headerSize` bytes, a well-framed
   message stream and fewer trailing bytes than a message header, the result
   is the id of the first 'A' message naming `name` that starts before the
   limit, and "not found" in every other case.
   */
  lemma SubscriptionIdOfLog(file: seq<byte>, headerSize: nat, msgs: seq<Message>,
                            name: seq<byte>, maxSearchLen: int, i: int)
    requires Encodable(msgs) && HoldsAt(file, headerSize, Encode(msgs))
    requires |file| < headerSize + |Encode(msgs)| + MessageHeaderSize
    requires IsFirstEnd(msgs, Starts(msgs, headerSize), name, maxSearchLen, i)
    ensures SubscriptionId(file, name, maxSearchLen, headerSize)
         == if i < |msgs| then EndResult(msgs, Starts(msgs, headerSize), maxSearchLen, i)
            else Err(SubscriptionNotFound)
  {
    ScanOverMessages(file, name, maxSearchLen, headerSize, msgs, i);
  }

  /**
   Clamping the search limit to the file length never changes the result:
   the walk can not start a message past the end of the file.
   */
  lemma {:induction false} LimitBeyondFileIsFileLength(file: seq<byte>, name: seq<byte>, maxSearchLen: int, pos: nat)
    requires pos <= |file| <= maxSearchLen
    ensures ScanFrom(file, name, maxSearchLen, pos) == ScanFrom(file, name, |file|, pos)
    decreases |file| - pos
  {
    if pos + MessageHeaderSize <= |file| {
      var next := pos + MessageHeaderSize + LE16(file[pos], file[pos + 1]);
      if next <= |file| {
        LimitBeyondFileIsFileLength(file, name, maxSearchLen, next);
      }
    }
  }
}
