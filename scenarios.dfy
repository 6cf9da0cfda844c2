/** A whole save buffer worked through the model: one player span holding a
    name and a current-turn flag, closed by an end-player marker in the
    last four bytes. */
module Scenarios {
  import opened Bytes
  import opened Markers
  import opened Scanner
  import opened Decoders
  import opened Players
  import opened Parser

  const Alice: seq<byte> := [0x41, 0x6C, 0x69, 0x63, 0x65]
  const Skipped: seq<byte> := [0, 0, 0, 0, 0, 0, 0, 0]

  /** Start-player marker, name marker, the string field "Alice",
      current-turn marker, the boolean field true, end-player marker. */
  function AliceSave(): (b: seq<byte>)
    ensures |b| == 47
  {
    StartPlayer + PlayerName + EncodeString(Alice) + PlayerCurrentTurn + EncodeBoolean(true, Skipped) + EndPlayer
  }

  /** `x` is the first byte of none of the markers the reader looks for. */
  predicate NoMarkerStart(x: byte) {
    x != EndPlayer[0] && x != PlayerPassword[0] && x != PlayerName[0] && x != PlayerCurrentTurn[0]
  }

  /** The reader moves past a cursor whose window is no marker it knows. */
  lemma ReaderSkips(b: seq<byte>, p: nat, f: PlayerData)
    requires 3 <= p && p + 1 < |b| && NoMarkerStart(b[p - 3])
    ensures ReadPlayerFrom(b, p, f) == ReadPlayerFrom(b, p + 1, f)
  {
    assert Window(b, p + 1)[0] == b[p - 3];
  }

  /** None of the `k` bytes of `b` from `lo` is a marker's first byte. */
  predicate PlainRun(b: seq<byte>, lo: nat, k: nat) {
    forall i {:trigger NoMarkerStart(b[i])} :: lo <= i < lo + k ==> i < |b| && NoMarkerStart(b[i])
  }

  /** The reader moves past `k` cursors in a row whose windows start with
      no marker's first byte. */
  lemma {:induction false} ReaderSkipsRun(b: seq<byte>, p: nat, k: nat, f: PlayerData)
    requires 3 <= p && p + k < |b| && PlainRun(b, p - 3, k)
    ensures ReadPlayerFrom(b, p, f) == ReadPlayerFrom(b, p + k, f)
    decreases k
  {
    if k > 0 {
      ReaderSkips(b, p, f);
      ReaderSkipsRun(b, p + 1, k - 1, f);
    }
  }

  /** The bytes at which the reader looks for a marker and finds none:
      the start marker's tail, the end of the name text, and the flag's
      skipped bytes and value. */
  lemma AliceGaps()
    ensures PlainRun(AliceSave(), 1, 3) && PlainRun(AliceSave(), 23, 3) && PlainRun(AliceSave(), 39, 4)
  {
    var b := AliceSave();
    var e := EncodeString(Alice);
    var t := EncodeBoolean(true, Skipped);
    assert b == (StartPlayer + PlayerName) + e + (PlayerCurrentTurn + t + EndPlayer);
    assert b[1] == 0x63 && b[2] == 0xE3 && b[3] == 0x4F;
    assert b[23] == e[15] && b[24] == e[16] && b[25] == e[17];
    assert b == (StartPlayer + PlayerName + e + PlayerCurrentTurn) + t + EndPlayer;
    assert b[39] == t[9] && b[40] == t[10] && b[41] == t[11] && b[42] == t[12];
  }

  /** The record after the name field, and after both fields. */
  const AliceNamed: PlayerData := NoFields.(name := Some(Field(8, Some(Alice))))
  const AliceData: PlayerData := AliceNamed.(isCurrentTurn := Some(Field(30, true)))

  /** The name marker ends at cursor 8; its string runs to cursor 26. */
  lemma AliceNameField()
    ensures Window(AliceSave(), 8) == PlayerName
    ensures FieldStep(AliceSave(), 8, NoFields) == Decoded(Ok(AliceNamed), 26)
  {
    var b := AliceSave();
    StringRoundTrip(StartPlayer + PlayerName, Alice, PlayerCurrentTurn + EncodeBoolean(true, Skipped) + EndPlayer);
    assert b == StartPlayer + PlayerName + EncodeString(Alice) + (PlayerCurrentTurn + EncodeBoolean(true, Skipped) + EndPlayer);
    assert b[4..8] == PlayerName;
  }

  /** The current-turn marker ends at cursor 30; its value byte is read at
      cursor 42, twelve bytes on. */
  lemma AliceTurnField()
    ensures Window(AliceSave(), 30) == PlayerCurrentTurn
    ensures FieldStep(AliceSave(), 30, AliceNamed) == Decoded(Ok(AliceData), 42)
  {
    var b := AliceSave();
    BooleanRoundTrip(StartPlayer + PlayerName + EncodeString(Alice) + PlayerCurrentTurn, true, Skipped, EndPlayer);
    assert b[26..30] == PlayerCurrentTurn;
    assert Window(b, 30) != PlayerPassword && Window(b, 30) != PlayerName;
  }

  /** From the start marker at cursor 4 the reader passes three windows
      that begin with no marker's first byte and records the name field. */
  lemma HeadLikeAlice(b: seq<byte>)
    requires 26 < |b| && PlainRun(b, 1, 3)
    requires Window(b, 8) == PlayerName && FieldStep(b, 8, NoFields) == Decoded(Ok(AliceNamed), 26)
    ensures ReadPlayerFrom(b, 4, NoFields) == ReadPlayerFrom(b, 26, AliceNamed)
  {
    ReaderSkipsRun(b, 4, 3, NoFields);
    assert Window(b, 8)[0] != EndPlayer[0];
    ReaderRecords(b, 7, NoFields);
  }

  /** After the name the reader passes three more such windows and records
      the current-turn field. */
  lemma MiddleLikeAlice(b: seq<byte>)
    requires 42 < |b| && PlainRun(b, 23, 3)
    requires Window(b, 30) == PlayerCurrentTurn && FieldStep(b, 30, AliceNamed) == Decoded(Ok(AliceData), 42)
    ensures ReadPlayerFrom(b, 26, AliceNamed) == ReadPlayerFrom(b, 42, AliceData)
  {
    ReaderSkipsRun(b, 26, 3, AliceNamed);
    assert Window(b, 30)[0] != EndPlayer[0];
    ReaderRecords(b, 29, AliceNamed);
  }

  /** After the flag the reader runs off the end of a 47-byte buffer: the
      end-player window would only show at cursor 47 = |b|, which is never
      compared. */
  lemma TailLikeAlice(b: seq<byte>)
    requires |b| == 47 && PlainRun(b, 39, 4)
    ensures ReadPlayerFrom(b, 42, AliceData) == Decoded(Ok(AliceData), 47)
  {
    ReaderSkipsRun(b, 42, 4, AliceData);
    ReaderStops(b, 46, AliceData);
  }

  /** The player span of `AliceSave()`: the name is read at cursor 8, the
      flag at cursor 30, and the record is closed by the end of the
      buffer. */
  lemma AliceSpan()
    ensures ReadPlayerFrom(AliceSave(), 4, NoFields) == Decoded(Ok(AliceData), 47)
  {
    AliceGaps();
    AliceNameField();
    AliceTurnField();
    HeadLikeAlice(AliceSave());
    MiddleLikeAlice(AliceSave());
    TailLikeAlice(AliceSave());
  }

  /** `parse` of `AliceSave()` gives exactly one player, at cursor 4, with
      name "Alice", current turn true and no password. */
  lemma AliceParses()
    ensures ParseBuffer(AliceSave()) ==
              Ok([Player(4, PlayerData(None, Some(Field(8, Some(Alice))), Some(Field(30, true))))])
  {
    var b := AliceSave();
    AliceSpan();
    assert b[..4] == StartPlayer;
    SpanReaderFits(b);
    AliceScan(StartSeen(b), SpanReader(b));
  }

  /** The outer loop over a 47-byte buffer whose first span is seen at
      cursor 4 and read up to the end of the buffer collects that one
      player. */
  lemma AliceScan(seen: nat -> bool, read: nat -> Decoded<PlayerData>)
    requires Advances(read) && seen(4) && read(4) == Decoded(Ok(AliceData), 47)
    ensures ScanPlayers(seen, read, 47, 4, []) == Ok([Player(4, AliceData)])
  {
    assert [] + [Player(4, AliceData)] == [Player(4, AliceData)];
  }
}
