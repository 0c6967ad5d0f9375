/**
 The compatibility and incompatibility flag bytes of a log, stored as text:
 `save` writes `''.join(chr(n) for n in flags)` and `load` reads back
 `[ord(c) for c in text]`.
 */
module FlagCodec {
  import opened Wrappers

  /**
   The numbers `chr` turns into a character the database can store: code
   points outside the surrogate range. `chr` refuses anything outside
   0..0x10FFFF and the database refuses a lone surrogate.
   */
  predicate Storable(n: int) {
    0 <= n < 0xD800 || 0xE000 <= n < 0x11_0000
  }

  /** Encode a flag list as text, or `None` when some flag has no storable character. */
  function EncodeFlags(flags: seq<int>): (r: Option<string>)
    ensures r.Some? <==> forall i :: 0 <= i < |flags| ==> Storable(flags[i])
    ensures r.Some? ==> |r.value| == |flags|
    decreases |flags|
  {
    if flags == [] then Some([])
    else if !Storable(flags[0]) then None
    else
      match EncodeFlags(flags[1..])
      case None => None
      case Some(rest) => Some([flags[0] as char] + rest)
  }

  /** Decode stored text into flag numbers. */
  function DecodeFlags(text: string): (r: seq<int>)
    ensures |r| == |text|
    ensures forall i :: 0 <= i < |r| ==> Storable(r[i])
    decreases |text|
  {
    if text == [] then [] else [text[0] as int] + DecodeFlags(text[1..])
  }

  /** Saving then loading the flags gives the flags back. */
  lemma {:induction false} DecodeEncode(flags: seq<int>)
    requires EncodeFlags(flags).Some?
    ensures DecodeFlags(EncodeFlags(flags).value) == flags
    decreases |flags|
  {
    if flags != [] {
      DecodeEncode(flags[1..]);
      assert flags == [flags[0]] + flags[1..];
    }
  }

  /** Every stored text is the encoding of the flags it decodes to. */
  lemma {:induction false} EncodeDecode(text: string)
    ensures EncodeFlags(DecodeFlags(text)) == Some(text)
    decreases |text|
  {
    if text != [] {
      EncodeDecode(text[1..]);
      assert DecodeFlags(text)[1..] == DecodeFlags(text[1..]);
      assert text == [text[0]] + text[1..];
    }
  }
}
