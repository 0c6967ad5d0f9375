/**
 Bytes and message framing of the ULog binary format: every message after
 the file header is `<size:u16 little-endian><type:u8>` followed by `size`
 payload bytes. `Encode` is the reference framing that the raw scanners are
 proved against.
 */
module Stream {

  /**
   A byte of the file. Files are sequences of plain integers: only 0..255
   occur in them, and the decoders below read every byte modulo 256, which is
   the identity on those values and keeps the decoders total.
   */
  type byte = int

  /** The little-endian unsigned 16-bit integer made of `lo` and `hi`. */
  function LE16(lo: byte, hi: byte): (r: nat)
    ensures r < 65536
  {
    lo % 256 + 256 * (hi % 256)
  }

  function LowByte(n: nat): byte
    requires n < 65536
  {
    n % 256
  }

  function HighByte(n: nat): byte
    requires n < 65536
  {
    n / 256
  }

  /** Encoding a 16-bit size as two little-endian bytes loses nothing. */
  lemma LE16OfBytes(n: nat)
    requires n < 65536
    ensures LE16(LowByte(n), HighByte(n)) == n
  {
  }

  /** The bytes of an ASCII text, as Python's `str.encode()` gives them. */
  function AsciiBytes(s: string): (b: seq<byte>)
    requires forall i :: 0 <= i < |s| ==> s[i] as int < 128
    ensures |b| == |s|
    ensures forall i :: 0 <= i < |s| ==> b[i] == s[i] as int
  {
    seq(|s|, i requires 0 <= i < |s| => s[i] as int)
  }

  /** Message type letters used by the scanners. */
  const AddLoggedMessage: byte := 65  // 'A'
  const LoggedData: byte := 68        // 'D'
  const SyncMessage: byte := 83       // 'S'

  /** Size of the `<size:u16><type:u8>` header of every message. */
  const MessageHeaderSize := 3

  /** Reasons the raw scanners raise. */
  datatype ScanError =
    | SubscriptionNotFound      // ValueError: no matching 'A' message
    | SeekOutOfRange            // ValueError from a seek past the end of the mapped file
    | IndexOutOfRange           // IndexError reading the arming byte
    | NoVehicleStatus           // ValueError: no vehicle_status data message seen
    | FormatNotFound            // ValueError: no format definition for vehicle_status
    | UnknownDataType(dataType: string)
    | FieldNotFound(field: string)

  /** One ULog message: its type letter and its payload. */
  datatype Message = Message(msgType: byte, payload: seq<byte>)

  predicate Encodable(msgs: seq<Message>) {
    forall i :: 0 <= i < |msgs| ==> |msgs[i].payload| < 65536
  }

  function EncodeMessage(m: Message): (b: seq<byte>)
    requires |m.payload| < 65536
    ensures |b| == MessageHeaderSize + |m.payload|
  {
    [LowByte(|m.payload|), HighByte(|m.payload|), m.msgType] + m.payload
  }

  /** The byte stream of a sequence of messages, one after the other. */
  function Encode(msgs: seq<Message>): seq<byte>
    requires Encodable(msgs)
  {
    if |msgs| == 0 then [] else EncodeMessage(msgs[0]) + Encode(msgs[1..])
  }

  /** Where each message of `msgs` starts when the first starts at `pos`. */
  function Starts(msgs: seq<Message>, pos: int): (s: seq<int>)
    ensures |s| == |msgs|
  {
    if |msgs| == 0 then []
    else [pos] + Starts(msgs[1..], pos + MessageHeaderSize + |msgs[0].payload|)
  }

  /** Every message starts at or after the first one's position. */
  lemma {:induction false} StartsFrom(msgs: seq<Message>, pos: int)
    ensures forall j :: 0 <= j < |msgs| ==> Starts(msgs, pos)[j] >= pos
    decreases |msgs|
  {
    if |msgs| > 0 {
      StartsFrom(msgs[1..], pos + MessageHeaderSize + |msgs[0].payload|);
    }
  }

  /** The messages of a concatenation are encodable exactly when those of both parts are. */
  lemma EncodableParts(a: seq<Message>, b: seq<Message>)
    ensures Encodable(a + b) <==> Encodable(a) && Encodable(b)
  {
    if Encodable(a + b) {
      forall i | 0 <= i < |a| ensures |a[i].payload| < 65536 {
        assert a[i] == (a + b)[i];
      }
      forall i | 0 <= i < |b| ensures |b[i].payload| < 65536 {
        assert b[i] == (a + b)[|a| + i];
      }
    }
    if Encodable(a) && Encodable(b) {
      forall i | 0 <= i < |a + b| ensures |(a + b)[i].payload| < 65536 {
        if i < |a| {
          assert (a + b)[i] == a[i];
        } else {
          assert (a + b)[i] == b[i - |a|];
        }
      }
    }
  }

  /** The stream of a concatenation is the concatenation of the streams. */
  lemma {:induction false} EncodeAppend(a: seq<Message>, b: seq<Message>)
    requires Encodable(a) && Encodable(b)
    ensures Encodable(a + b)
    ensures Encode(a + b) == Encode(a) + Encode(b)
    decreases |a|
  {
    EncodableParts(a, b);
    if |a| == 0 {
      assert a + b == b;
    } else {
      var ab := a + b;
      assert ab[0] == a[0] && ab[1..] == a[1..] + b;
      EncodeCons(a);
      EncodeAppend(a[1..], b);
      EncodeCons(ab);
    }
  }

  /** The start positions of a prefix are the first start positions of the whole. */
  lemma {:induction false} StartsAppend(a: seq<Message>, b: seq<Message>, pos: int)
    ensures Starts(a + b, pos)[..|a|] == Starts(a, pos)
    decreases |a|
  {
    if |a| > 0 {
      assert (a + b)[1..] == a[1..] + b;
      StartsAppend(a[1..], b, pos + MessageHeaderSize + |a[0].payload|);
    }
  }

  /** The file holds the bytes `s` from position `pos` on. */
  predicate HoldsAt(file: seq<byte>, pos: int, s: seq<byte>) {
    && 0 <= pos && pos + |s| <= |file|
    && forall k :: 0 <= k < |s| ==> file[pos + k] == s[k]
  }

  /** Bytes held in two parts, one after the other, are the bytes of both parts held. */
  lemma HoldsAtConcat(file: seq<byte>, pos: int, x: seq<byte>, y: seq<byte>)
    ensures HoldsAt(file, pos, x + y) <==> HoldsAt(file, pos, x) && HoldsAt(file, pos + |x|, y)
  {
    if HoldsAt(file, pos, x + y) {
      forall k | 0 <= k < |x| ensures file[pos + k] == x[k] {
        assert (x + y)[k] == x[k];
      }
      forall k | 0 <= k < |y| ensures file[pos + |x| + k] == y[k] {
        assert (x + y)[|x| + k] == y[k];
      }
    }
    if HoldsAt(file, pos, x) && HoldsAt(file, pos + |x|, y) {
      forall k | 0 <= k < |x + y| ensures file[pos + k] == (x + y)[k] {
        if k >= |x| {
          assert file[pos + |x| + (k - |x|)] == y[k - |x|];
        }
      }
    }
  }

  /** A stream of two parts held in the file holds each part, one after the other. */
  lemma HoldsAtSplit(file: seq<byte>, pos: int, a: seq<Message>, b: seq<Message>)
    requires Encodable(a + b) && HoldsAt(file, pos, Encode(a + b))
    ensures Encodable(a) && Encodable(b)
    ensures HoldsAt(file, pos, Encode(a)) && HoldsAt(file, pos + |Encode(a)|, Encode(b))
  {
    EncodableParts(a, b);
    EncodeAppend(a, b);
    HoldsAtConcat(file, pos, Encode(a), Encode(b));
  }

  /** Two streams held one after the other hold their concatenation. */
  lemma HoldsAtJoin(file: seq<byte>, pos: int, a: seq<Message>, b: seq<Message>)
    requires Encodable(a) && Encodable(b)
    requires HoldsAt(file, pos, Encode(a)) && HoldsAt(file, pos + |Encode(a)|, Encode(b))
    ensures Encodable(a + b) && HoldsAt(file, pos, Encode(a + b))
  {
    EncodeAppend(a, b);
    HoldsAtConcat(file, pos, Encode(a), Encode(b));
  }

  /** The stream of one message is that message's encoding. */
  lemma EncodeSingle(m: Message)
    requires |m.payload| < 65536
    ensures Encodable([m]) && Encode([m]) == EncodeMessage(m)
  {
    assert [m][1..] == [];
  }

  /** The first three bytes of an encoded stream are the first message's header. */
  lemma EncodedHeader(msgs: seq<Message>)
    requires Encodable(msgs) && |msgs| > 0
    ensures |Encode(msgs)| >= MessageHeaderSize + |msgs[0].payload|
    ensures Encode(msgs)[0] == LowByte(|msgs[0].payload|)
    ensures Encode(msgs)[1] == HighByte(|msgs[0].payload|)
    ensures Encode(msgs)[2] == msgs[0].msgType
  {
    var head := EncodeMessage(msgs[0]);
    assert Encode(msgs)[..3] == head[..3];
  }

  /** A non-empty stream is its first message's encoding followed by the stream of the rest. */
  lemma EncodeCons(msgs: seq<Message>)
    requires Encodable(msgs) && |msgs| > 0
    ensures Encodable(msgs[1..])
    ensures Encode(msgs) == EncodeMessage(msgs[0]) + Encode(msgs[1..])
  {
  }

  /** The payload follows the header, and the rest of the stream follows the payload. */
  lemma EncodedBody(msgs: seq<Message>, k: int)
    requires Encodable(msgs) && |msgs| > 0
    ensures |Encode(msgs)| == MessageHeaderSize + |msgs[0].payload| + |Encode(msgs[1..])|
    ensures 0 <= k < |msgs[0].payload| ==> Encode(msgs)[MessageHeaderSize + k] == msgs[0].payload[k]
    ensures 0 <= k < |Encode(msgs[1..])| ==>
              Encode(msgs)[MessageHeaderSize + |msgs[0].payload| + k] == Encode(msgs[1..])[k]
  {
    EncodeCons(msgs);
    PartsOfConcat(EncodeMessage(msgs[0]), Encode(msgs[1..]), msgs[0], k);
  }

  /** Indexing into a message's encoding followed by more bytes. */
  lemma PartsOfConcat(head: seq<byte>, rest: seq<byte>, m: Message, k: int)
    requires |m.payload| < 65536 && head == EncodeMessage(m)
    ensures |head + rest| == MessageHeaderSize + |m.payload| + |rest|
    ensures 0 <= k < |m.payload| ==> (head + rest)[MessageHeaderSize + k] == m.payload[k]
    ensures 0 <= k < |rest| ==> (head + rest)[MessageHeaderSize + |m.payload| + k] == rest[k]
  {
  }

  /**
   The first message of an encoded stream placed at `pos` can be read back
   from the file: its size header, its type letter and its payload, and the
   rest of the stream follows it.
   */
  lemma ReadFirst(file: seq<byte>, pos: int, msgs: seq<Message>)
    requires Encodable(msgs) && |msgs| > 0
    requires HoldsAt(file, pos, Encode(msgs))
    ensures pos + MessageHeaderSize + |msgs[0].payload| <= |file|
    ensures LE16(file[pos], file[pos + 1]) == |msgs[0].payload|
    ensures file[pos + 2] == msgs[0].msgType
    ensures file[pos + 3 .. pos + 3 + |msgs[0].payload|] == msgs[0].payload
    ensures HoldsAt(file, pos + MessageHeaderSize + |msgs[0].payload|, Encode(msgs[1..]))
  {
    ReadHeader(file, pos, msgs);
    ReadPayload(file, pos, msgs);
    ReadRest(file, pos, msgs);
  }

  lemma ReadHeader(file: seq<byte>, pos: int, msgs: seq<Message>)
    requires Encodable(msgs) && |msgs| > 0
    requires HoldsAt(file, pos, Encode(msgs))
    ensures pos + MessageHeaderSize + |msgs[0].payload| <= |file|
    ensures LE16(file[pos], file[pos + 1]) == |msgs[0].payload|
    ensures file[pos + 2] == msgs[0].msgType
  {
    var e := Encode(msgs);
    EncodedHeader(msgs);
    assert file[pos + 0] == e[0];
    assert file[pos + 1] == e[1];
    assert file[pos + 2] == e[2];
    LE16OfBytes(|msgs[0].payload|);
  }

  lemma ReadPayload(file: seq<byte>, pos: int, msgs: seq<Message>)
    requires Encodable(msgs) && |msgs| > 0
    requires HoldsAt(file, pos, Encode(msgs))
    ensures pos + MessageHeaderSize + |msgs[0].payload| <= |file|
    ensures file[pos + 3 .. pos + 3 + |msgs[0].payload|] == msgs[0].payload
  {
    var n := |msgs[0].payload|;
    EncodedBody(msgs, 0);
    forall k | 0 <= k < n
      ensures file[pos + 3 .. pos + 3 + n][k] == msgs[0].payload[k]
    {
      EncodedBody(msgs, k);
      assert file[pos + (MessageHeaderSize + k)] == Encode(msgs)[MessageHeaderSize + k];
    }
  }

  lemma ReadRest(file: seq<byte>, pos: int, msgs: seq<Message>)
    requires Encodable(msgs) && |msgs| > 0
    requires HoldsAt(file, pos, Encode(msgs))
    ensures HoldsAt(file, pos + MessageHeaderSize + |msgs[0].payload|, Encode(msgs[1..]))
  {
    var n := |msgs[0].payload|;
    var rest := Encode(msgs[1..]);
    EncodedBody(msgs, 0);
    forall k | 0 <= k < |rest|
      ensures file[pos + MessageHeaderSize + n + k] == rest[k]
    {
      EncodedBody(msgs, k);
      assert file[pos + (MessageHeaderSize + n + k)] == Encode(msgs)[MessageHeaderSize + n + k];
    }
  }
}
