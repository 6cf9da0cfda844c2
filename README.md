# civ6-save-parser: the byte-scanning engine

This project models the scanning engine of `parser.js` from civ6-save-parser.
The engine reads the players out of a Civilization VI save file. It walks the
buffer one byte at a time and keeps a trailing 4-byte window. Each window that
equals the start-player marker opens a player record. Inside a record, windows
that equal the password, name or current-turn marker send the cursor to a
string or boolean decoder. The record ends at an end-player window or at the
end of the buffer.

The modules follow the structure of the source:

- `Bytes`: the few Node `Buffer` operations the engine uses.
  - `readUInt32LE` and `readUInt16LE` throw `RangeError` past the end. The
    model returns `OutOfRange`.
  - `slice` clamps both ends (for the non-negative offsets the engine passes).
  - `buf[i]` past the end reads `undefined`, which is false.
- `Markers`: the five 4-byte markers.
- `Scanner`: the shared `{pos, last4}` cursor object, as the class
  `ScanState`.
  - Its constructor is the first call of `scan`.
  - The method `Scan` is every later call. It returns `false` where `scan`
    returns `null`.
- `Decoders`: `readString` and `readBoolean`.
  - Each is a method that advances the shared cursor step by step, as the
    source does.
  - Each method is proved equal to a pure function (`DecodeString`,
    `DecodeBoolean`) that gives the outcome and the final cursor.
  - Lemmas state every case of each decoder and a round trip against an
    encoder of a well-formed field.
- `Players`: `readPlayer`, as the loop method `ReadPlayer` over the shared
  cursor.
  - The method is proved equal to the recursive function `ReadPlayerFrom`.
  - Lemmas state which windows the reader compares, where it stops, where
    each field comes from, and that the last occurrence of a marker wins.
- `Parser`: the loop of `parse`, as the method `Parse`. It runs
  `CollectPlayers`, which shares one cursor object with `ReadPlayer`.
  - The method is proved equal to the function `ParseBuffer`.
  - `ParseCharacterized` describes the result without running the loop. The
    players found are, in order, the start-player windows the loop meets:
    each one is the first start-player window after the cursor at which the
    previous player's reader stopped. The parse throws exactly when one of
    those readers reads past the end of the buffer.
- `Scenarios`: a 47-byte save worked through end to end. It holds one player
  with a name and a current-turn flag, and its end-player marker sits in the
  last four bytes.

The buffer is an immutable `seq<byte>` given as input. Text fields stay raw
bytes. A `RangeError` thrown by a read ends the whole parse: the
`OutOfRange` outcome of the decoders, of `ReadPlayer` and of `Parse`.

Some behaviours of the code that are easy to miss:

- A string whose signature does not match leaves the cursor 6 bytes on, past
  the tag and the length. It does not stay where it was.
- A field whose marker is seen is recorded even when its decoder returns
  null (`value: null`).
- The boolean value is the byte 12 bytes after the start of its tag. That is
  the tag followed by 8 skipped bytes, not by 12.
- A string payload that runs past the end of the buffer is cut short by the
  clamping `slice`. It is not an error.
- A buffer that is exactly the start-player marker gives one player with no
  fields. The first window is compared whatever the buffer's length.

## Model

| member | source | states |
|---|---|---|
| Bytes.ReadUInt32LE | parser.js:99 | the read succeeds exactly when four bytes remain at the offset, and then its value is the one whose little-endian encoding is those bytes |
| Bytes.ReadUInt16LE | parser.js:101 | the read succeeds exactly when two bytes remain at the offset, and then its value is the one whose little-endian encoding is those bytes |
| Bytes.LE32IsSmall | parser.js:99 | a 32-bit little-endian tag equals a small number n exactly when its bytes are n, 0, 0, 0 |
| Bytes.LE32Injective | parser.js:99 | a 32-bit little-endian value is below 2^32 and its encoding gives back the four bytes |
| Bytes.Slice | parser.js:104-106 | inside the buffer the slice is the subsequence; an end past the buffer is clamped; an empty or inverted range gives nothing |
| Markers.MarkersDistinct | parser.js:7-11 | the five markers are pairwise different |
| Scanner.Window | parser.js:65 | inside the buffer the window at cursor p is bytes [p-4, p); a full 4-byte window lies inside the buffer |
| Scanner.ScanState.Start | parser.js:53-57 | the first state has cursor 4 and the first four bytes (fewer for a shorter buffer) as its window, with no length check |
| Scanner.Scan | parser.js:58-68 | the cursor moves on by exactly one; the scan goes on exactly when the cursor is inside the buffer, and then the window is the four bytes before it; at the end the window is unchanged |
| Decoders.DecodeString | parser.js:96-112 | the cursor never moves back and stops at c, c+4, c+6 or at least c+12; a text returned is bytes of the buffer from c+12 and fits before the final cursor |
| Decoders.ReadString | parser.js:96-112 | the method over the shared cursor returns exactly what `DecodeString` gives and leaves the cursor where it stops; the window is untouched |
| Decoders.StringOutOfRange | parser.js:99-101 | `readString` throws exactly when fewer than four bytes remain at the cursor, or the tag is 5 and fewer than six remain |
| Decoders.StringTagMismatch | parser.js:97-99 | a tag other than 5 gives null and leaves the cursor where it was |
| Decoders.StringSignatureMismatch | parser.js:100-104 | tag 5 with the wrong six signature bytes gives null with the cursor at c+6 |
| Decoders.StringPayload | parser.js:104-107 | with tag and signature in place the cursor ends at c+12+len; the text is empty for len 0, is bytes [c+12, c+11+len) when they fit, and is clamped at the buffer end otherwise |
| Decoders.StringRoundTrip | parser.js:96-112 | a well-formed string field anywhere in a buffer decodes to its text, with the cursor just past the field |
| Decoders.DecodeBoolean | parser.js:114-123 | the cursor stays or moves exactly 12; true is returned only from a non-zero byte at c+12 inside the buffer |
| Decoders.ReadBoolean | parser.js:114-123 | the method over the shared cursor returns exactly what `DecodeBoolean` gives and leaves the cursor where it stops; the window is untouched |
| Decoders.BooleanOutOfRange | parser.js:117 | `readBoolean` throws exactly when fewer than four bytes remain at the cursor |
| Decoders.BooleanTagMismatch | parser.js:115-122 | a tag other than 1 gives false and leaves the cursor where it was |
| Decoders.BooleanValue | parser.js:117-120 | tag 1 moves the cursor exactly 12 on, and the value is whether that byte is inside the buffer and non-zero |
| Decoders.BooleanRoundTrip | parser.js:114-123 | a well-formed boolean field decodes to its value whatever its skipped bytes hold, with the cursor on its value byte |
| Players.FieldStep | parser.js:75-90 | one round of the reader at a non-end window never moves the cursor back |
| Players.ReadPlayerFrom | parser.js:71-94 | the reader always moves the cursor on, and returns without a throw only at an end-player window or at or past the end of the buffer |
| Players.ReadPlayer | parser.js:71-94 | the loop method over the shared cursor returns exactly the record or throw of `ReadPlayerFrom`, and leaves the cursor where that function stops; a normal return inside the buffer leaves the window on the end-player marker, a throw leaves it on the field marker whose decoder threw |
| Players.ReaderStops | parser.js:74 | at the end of the buffer or an end-player window the reader returns the record so far, one byte on |
| Players.ReaderRecords | parser.js:74-90 | at any other window whose decoder does not throw, the reader records the field and goes on from where the decoder stopped |
| Players.ReaderThrows | parser.js:74-90 | a decoder that throws ends the reader with that throw |
| Players.RecordedFields | parser.js:75-90 | every field of the returned record was recorded inside the span, at the cursor just after its own marker, with exactly what its decoder returned there |
| Players.InspectedSteps | parser.js:74-90 | the first compared cursor is the one after the start, and each next one is the cursor just after where the previous one's step (its decoder, if any) left the reader: every cursor no decoder consumed is compared |
| Players.InspectedInSpan | parser.js:74 | the cursors at which the reader compares windows strictly increase, lie inside the buffer and do not pass the cursor where it stops |
| Players.InspectedStop | parser.js:74 | no compared window but the last is the end-player marker; a reader that stops inside the buffer stops at the first end-player window; one that runs off the end has seen none |
| Players.InspectedThrow | parser.js:74-90 | a reader that throws stops at a field marker, not the end-player marker, whose decoder threw |
| Players.LastMarkerWins | parser.js:75-90 | each field comes from the last of its markers the reader compared, even when the decoder returned null; a field with no such marker keeps the value the reader started with |
| Parser.ScanPlayers | parser.js:28-35 | the outer loop only appends to the players found so far |
| Parser.ParseCharacterized | parser.js:20-37 | `parse` returns `ps` exactly when `ps` lists, in order, every player the loop meets, each at the first start-player window after the previous reader stopped; it throws exactly when such a player's reader throws |
| Parser.CompleteIsUnique | parser.js:28-35 | at most one list of players satisfies that description |
| Parser.CompleteExcludesAborted | parser.js:28-35 | a run that finds every player cannot also be one that throws |
| Parser.Parse | parser.js:20-37 | the loop method returns exactly `ParseBuffer`; its players are the complete list, and it throws exactly when some player's reader throws |
| Parser.CollectPlayers | parser.js:26-35 | the loop, sharing one cursor object with the reader, returns the complete list of players or throws only when some player's reader throws |
| Parser.ShortBuffer | parser.js:53-57 | a buffer of at most four bytes holds no player, unless it is exactly the start-player marker, which gives one player with no fields |
| Parser.NoStartNoPlayers | parser.js:28-35 | a buffer without a start-player marker gives no player, whatever field markers it holds |
| Parser.PlayersInOrder | parser.js:28-35 | each player sits right after a start-player marker that does not end the buffer (or at cursor 4) and holds what the reader built there; each starts after the previous reader stopped; cursors strictly increase |
| Scenarios.ReaderSkipsRun | parser.js:74-90 | the reader passes any run of cursors whose windows start with no marker's first byte |
| Scenarios.AliceSpan | parser.js:71-94 | the player span of the sample save reads the name at cursor 8 and the flag at cursor 30, and its end-player marker in the last four bytes is never compared |
| Scenarios.AliceParses | parser.js:20-37 | `parse` of the sample save returns exactly one player, at cursor 4, named "Alice", current turn true, no password |

## Left out

- Reading the file, `new Buffer(data)`, option defaulting with lodash, and the command-line wrapper (parser.js:15-19, 24, 40-47) are I/O and library plumbing. The buffer is a parameter.
- The `allKeys` option is accepted but never read, so it has no behaviour to model.
- `Buffer.toString()` decodes text as UTF-8 (parser.js:106). The model keeps the raw byte slice.
- `getChunk` (parser.js:125-152) is never called. Its success branch reads the undeclared `CHUNK_KEYS` and would throw a `ReferenceError`, so it has no stable contract.
- Node's exception types are collapsed into one `OutOfRange` outcome. The only throws the engine can raise are `RangeError`s from `readUInt32LE` and `readUInt16LE`.
- Bytes.Slice: Node's `slice` counts a negative offset from the end of the buffer; the model clamps it to 0. The engine only passes non-negative offsets.
- Buffer offsets are unbounded naturals. Node's limit on buffer length is not modelled.
- The buffer is a value, so aliasing between the buffer and the cursor object cannot arise. The cursor object itself is a class shared by reference between `CollectPlayers` and `ReadPlayer`.
