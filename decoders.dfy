/** The two typed-value decoders of parser.js, `readString` and
    `readBoolean`. Each starts at the cursor just after a field marker, checks
    a little-endian 32-bit type tag there and advances the shared cursor as it
    goes. Each is written twice: as a function (`DecodeString`,
    `DecodeBoolean`) that gives the outcome and the final cursor, and as a
    method over the shared `ScanState` that is proved to agree with it. */
module Decoders {
  import opened Bytes
  import opened Scanner

  /** JavaScript's `null` next to a value. */
  datatype Option<+T> = None | Some(value: T)

  /** What a decoder leaves behind: its outcome and the cursor it stops at. */
  datatype Decoded<+T> = Decoded(outcome: Outcome<T>, next: nat)

  /** The type tag of a length-prefixed string, as it appears in the buffer. */
  const StringTag: seq<byte> := [5, 0, 0, 0]

  /** The type tag of a boolean, as it appears in the buffer. */
  const BooleanTag: seq<byte> := [1, 0, 0, 0]

  /** The fixed six bytes between a string's length and its text. */
  const StringSignature: seq<byte> := [0x00, 0x21, 0x01, 0x00, 0x00, 0x00]

  /** `readString` at cursor `c`: a tag that is not 5 gives null and moves
      nothing; then the 16-bit length `len` is read at c+4; a signature
      mismatch gives null with the cursor left at c+6; otherwise the text is
      the (clamped) bytes [c+12, c+12+len-1), the last byte of the `len`
      being a terminator, and the cursor ends at c+12+len. */
  function DecodeString(b: seq<byte>, c: nat): (r: Decoded<Option<seq<byte>>>)
    ensures c <= r.next
    ensures r.next == c || r.next == c + 4 || r.next == c + 6 || c + 12 <= r.next
    ensures r.outcome.Ok? && r.outcome.value.Some? ==>
              var text := r.outcome.value.value;
              c + 12 + |text| <= |b| && text == b[c + 12..c + 12 + |text|] && |text| <= r.next - (c + 12)
  {
    match ReadUInt32LE(b, c)
    case OutOfRange => Decoded(OutOfRange, c)
    case Ok(tag) =>
      if tag != 5 then Decoded(Ok(None), c)
      else
        match ReadUInt16LE(b, c + 4)
        case OutOfRange => Decoded(OutOfRange, c + 4)
        case Ok(len) =>
          if Slice(b, c + 6, c + 12) != StringSignature then Decoded(Ok(None), c + 6)
          else Decoded(Ok(Some(Slice(b, c + 12, c + 12 + len - 1))), c + 12 + len)
  }

  /** `readBoolean` at cursor `c`: a tag that is not 1 gives false and moves
      nothing; otherwise the cursor moves 12 bytes on and the byte there is
      the value (false past the end of the buffer). */
  function DecodeBoolean(b: seq<byte>, c: nat): (r: Decoded<bool>)
    ensures r.next == c || r.next == c + 12
    ensures r.outcome.Ok? && r.outcome.value ==> r.next == c + 12 < |b| && b[c + 12] != 0
  {
    match ReadUInt32LE(b, c)
    case OutOfRange => Decoded(OutOfRange, c)
    case Ok(tag) =>
      if tag != 1 then Decoded(Ok(false), c)
      else Decoded(Ok(Truthy(b, c + 12)), c + 12)
  }

  /** `readString(buffer, state)`: advances `state.pos` step by step as the
      source does; a `RangeError` from a read leaves the cursor where that
      read was attempted. */
  method ReadString(buffer: seq<byte>, state: ScanState) returns (r: Outcome<Option<seq<byte>>>)
    modifies state
    ensures Decoded(r, state.pos) == DecodeString(buffer, old(state.pos))
    ensures state.last4 == old(state.last4)
  {
    var result := None;
    var tag := ReadUInt32LE(buffer, state.pos);
    if tag.OutOfRange? {
      return OutOfRange;
    }
    if tag.value == 5 {
      state.pos := state.pos + 4;
      var strLen := ReadUInt16LE(buffer, state.pos);
      if strLen.OutOfRange? {
        return OutOfRange;
      }
      state.pos := state.pos + 2;
      if Slice(buffer, state.pos, state.pos + 6) == StringSignature {
        state.pos := state.pos + 6;
        result := Some(Slice(buffer, state.pos, state.pos + strLen.value - 1));
        state.pos := state.pos + strLen.value;
      }
    }
    r := Ok(result);
  }

  /** `readBoolean(buffer, state)`. */
  method ReadBoolean(buffer: seq<byte>, state: ScanState) returns (r: Outcome<bool>)
    modifies state
    ensures Decoded(r, state.pos) == DecodeBoolean(buffer, old(state.pos))
    ensures state.last4 == old(state.last4)
  {
    var result := false;
    var tag := ReadUInt32LE(buffer, state.pos);
    if tag.OutOfRange? {
      return OutOfRange;
    }
    if tag.value == 1 {
      state.pos := state.pos + 12;
      return Ok(Truthy(buffer, state.pos));
    }
    r := Ok(result);
  }

  // ----- readString: its cases in terms of the bytes at the cursor -----

  /** Only the two reads throw: the tag when fewer than 4 bytes remain, the
      length when the tag is 5 and fewer than 6 bytes remain. */
  lemma StringOutOfRange(b: seq<byte>, c: nat)
    ensures DecodeString(b, c).outcome.OutOfRange? <==>
              |b| < c + 4 || (|b| < c + 6 && b[c..c + 4] == StringTag)
  {
    if c + 4 <= |b| {
      LE32IsSmall(b[c..c + 4], 5);
    }
  }

  /** A tag other than 5 gives null, whatever follows, and moves nothing. */
  lemma StringTagMismatch(b: seq<byte>, c: nat)
    requires c + 4 <= |b| && b[c..c + 4] != StringTag
    ensures DecodeString(b, c) == Decoded(Ok(None), c)
  {
    LE32IsSmall(b[c..c + 4], 5);
  }

  /** Tag 5 followed by the wrong six signature bytes gives null, but the
      cursor has already moved past the tag and the length. */
  lemma StringSignatureMismatch(b: seq<byte>, c: nat)
    requires c + 6 <= |b| && b[c..c + 4] == StringTag
    requires Slice(b, c + 6, c + 12) != StringSignature
    ensures DecodeString(b, c) == Decoded(Ok(None), c + 6)
  {
    LE32IsSmall(b[c..c + 4], 5);
  }

  /** With tag and signature in place, the text is the `len - 1` bytes after
      the 12-byte header, cut short at the end of the buffer and empty when
      `len` is 0, and the cursor moves past all `len` bytes. */
  lemma StringPayload(b: seq<byte>, c: nat)
    requires c + 12 <= |b| && b[c..c + 4] == StringTag && b[c + 6..c + 12] == StringSignature
    ensures var len := LE16(b[c + 4..c + 6]);
            var d := DecodeString(b, c);
            d.next == c + 12 + len && d.outcome.Ok? && d.outcome.value.Some? &&
            var text := d.outcome.value.value;
            (len == 0 ==> text == []) &&
            (1 <= len && c + 11 + len <= |b| ==> text == b[c + 12..c + 11 + len]) &&
            (|b| < c + 11 + len ==> text == b[c + 12..])
  {
    LE32IsSmall(b[c..c + 4], 5);
  }

  /** The bytes of a well-formed string field holding `text`: tag, length
      (the text plus its terminator), signature, text, terminator. */
  function EncodeString(text: seq<byte>): (e: seq<byte>)
    requires |text| < 0xFFFF
    ensures |e| == 13 + |text|
  {
    StringTag + EncodeLE16(|text| + 1) + StringSignature + text + [0]
  }

  /** Decoding a well-formed string field, wherever it sits in a buffer,
      gives back its text and moves the cursor exactly past the field. */
  lemma {:induction false} StringRoundTrip(before: seq<byte>, text: seq<byte>, after: seq<byte>)
    requires |text| < 0xFFFF
    ensures var b := before + EncodeString(text) + after;
            DecodeString(b, |before|) == Decoded(Ok(Some(text)), |before| + |EncodeString(text)|)
  {
    var b := before + EncodeString(text) + after;
    var c := |before|;
    var len := EncodeLE16(|text| + 1);
    assert b[c..c + 4] == StringTag;
    assert b[c + 4..c + 6] == len;
    assert b[c + 6..c + 12] == StringSignature;
    assert b[c + 12..c + 12 + |text|] == text;
    StringPayload(b, c);
  }

  // ----- readBoolean: its cases in terms of the bytes at the cursor -----

  /** Only the tag read throws, when fewer than 4 bytes remain. */
  lemma BooleanOutOfRange(b: seq<byte>, c: nat)
    ensures DecodeBoolean(b, c).outcome.OutOfRange? <==> |b| < c + 4
  {
  }

  /** A tag other than 1 gives false (not null) and moves nothing. */
  lemma BooleanTagMismatch(b: seq<byte>, c: nat)
    requires c + 4 <= |b| && b[c..c + 4] != BooleanTag
    ensures DecodeBoolean(b, c) == Decoded(Ok(false), c)
  {
    LE32IsSmall(b[c..c + 4], 1);
  }

  /** Tag 1 moves the cursor exactly 12 bytes on, and the value is whether
      the byte there is non-zero; a cursor past the end reads as false. */
  lemma BooleanValue(b: seq<byte>, c: nat)
    requires c + 4 <= |b| && b[c..c + 4] == BooleanTag
    ensures DecodeBoolean(b, c) == Decoded(Ok(c + 12 < |b| && b[c + 12] != 0), c + 12)
  {
    LE32IsSmall(b[c..c + 4], 1);
  }

  /** The bytes of a well-formed boolean field: tag, eight bytes that are
      skipped, and the value byte. */
  function EncodeBoolean(value: bool, skipped: seq<byte>): (e: seq<byte>)
    requires |skipped| == 8
    ensures |e| == 13
  {
    BooleanTag + skipped + [if value then 1 else 0]
  }

  /** Decoding a well-formed boolean field gives back its value, whatever
      the skipped bytes hold, and leaves the cursor on the value byte. */
  lemma {:induction false} BooleanRoundTrip(before: seq<byte>, value: bool, skipped: seq<byte>, after: seq<byte>)
    requires |skipped| == 8
    ensures var b := before + EncodeBoolean(value, skipped) + after;
            DecodeBoolean(b, |before|) == Decoded(Ok(value), |before| + 12)
  {
    var b := before + EncodeBoolean(value, skipped) + after;
    var c := |before|;
    assert b[c..c + 4] == BooleanTag;
    assert b[c + 12] == if value then 1 else 0;
    BooleanValue(b, c);
  }
}
