/** The byte-by-byte scanner of parser.js: one cursor object, shared by the
    outer parse loop, the player reader and the decoders, that holds the
    cursor and the 4 bytes just before it. */
module Scanner {
  import opened Bytes

  /** The trailing window at cursor `pos`: the (clamped) bytes [pos-4, pos). */
  function Window(b: seq<byte>, pos: nat): (w: seq<byte>)
    ensures 4 <= pos <= |b| ==> w == b[pos - 4..pos]
    ensures |w| == 4 ==> 4 <= pos <= |b|
  {
    Slice(b, pos - 4, pos)
  }

  /** The `{pos, last4}` state object that `scan` creates and then updates in place. */
  class ScanState {
    var pos: nat
    var last4: seq<byte>

    /** The first call of `scan`: cursor 4 and the first four bytes as the
        window, with no length check (a shorter buffer gives a shorter window). */
    constructor Start(buffer: seq<byte>)
      ensures pos == 4 && last4 == Window(buffer, 4)
      ensures |buffer| >= 4 ==> last4 == buffer[..4]
      ensures |buffer| < 4 ==> last4 == buffer
    {
      pos := 4;
      last4 := Slice(buffer, 0, 4);
    }
  }

  /** Every later call of `scan`: the cursor moves on by exactly one byte;
      at or past the end the scan is over (`more` is false, JavaScript's
      `null`), otherwise the window becomes the four bytes before the cursor. */
  method Scan(buffer: seq<byte>, state: ScanState) returns (more: bool)
    requires state.pos >= 4
    modifies state
    ensures state.pos == old(state.pos) + 1
    ensures more <==> state.pos < |buffer|
    ensures more ==> state.last4 == buffer[state.pos - 4..state.pos] == Window(buffer, state.pos)
    ensures !more ==> state.last4 == old(state.last4)
  {
    state.pos := state.pos + 1;
    if state.pos >= |buffer| {
      return false;
    }
    state.last4 := Slice(buffer, state.pos - 4, state.pos);
    more := true;
  }
}
