/** The few operations of Node's `Buffer` that the save-file scanner relies on,
    over an immutable byte sequence: little-endian unsigned reads that throw
    past the end, a `slice` that clamps, and indexing that reads `undefined`
    past the end. */
module Bytes {

  type byte = x: int | 0 <= x < 0x100

  /** The result of an operation that may throw Node's `RangeError`. */
  datatype Outcome<+T> = Ok(value: T) | OutOfRange

  /** The unsigned value of two bytes, least significant first. */
  function LE16(s: seq<byte>): nat
    requires |s| == 2
  {
    s[0] as int + 0x100 * s[1] as int
  }

  /** The unsigned value of four bytes, least significant first. */
  function LE32(s: seq<byte>): nat
    requires |s| == 4
  {
    LE16(s[..2]) + 0x1_0000 * LE16(s[2..])
  }

  /** The two bytes that hold `n`, least significant first. */
  function EncodeLE16(n: nat): (s: seq<byte>)
    requires n < 0x1_0000
    ensures |s| == 2 && LE16(s) == n
  {
    [n % 0x100, n / 0x100]
  }

  /** The four bytes that hold `n`, least significant first. */
  function EncodeLE32(n: nat): (s: seq<byte>)
    requires n < 0x1_0000_0000
    ensures |s| == 4 && LE32(s) == n
  {
    var lo, hi := EncodeLE16(n % 0x1_0000), EncodeLE16(n / 0x1_0000);
    assert (lo + hi)[..2] == lo && (lo + hi)[2..] == hi;
    lo + hi
  }

  /** Decoding loses nothing: the two bytes are recovered from their value. */
  lemma LE16Injective(s: seq<byte>)
    requires |s| == 2
    ensures LE16(s) < 0x1_0000 && EncodeLE16(LE16(s)) == s
  {
  }

  /** Decoding loses nothing: the four bytes are recovered from their value. */
  lemma LE32Injective(s: seq<byte>)
    requires |s| == 4
    ensures LE32(s) < 0x1_0000_0000 && EncodeLE32(LE32(s)) == s
  {
    var lo, hi := LE16(s[..2]), LE16(s[2..]);
    LE16Injective(s[..2]);
    LE16Injective(s[2..]);
    var n := LE32(s);
    assert n == lo + 0x1_0000 * hi;
    assert n % 0x1_0000 == lo && n / 0x1_0000 == hi;
    assert s == s[..2] + s[2..];
  }

  /** A little-endian 32-bit group equals the small number `n` exactly when
      its bytes are `n` followed by three zeros. */
  lemma LE32IsSmall(s: seq<byte>, n: byte)
    requires |s| == 4
    ensures LE32(s) == n <==> s == [n, 0, 0, 0]
  {
    LE32Injective(s);
    assert EncodeLE32(n) == [n, 0, 0, 0];
  }

  /** `buf.readUInt32LE(off)`: throws unless all four bytes lie inside the buffer. */
  function ReadUInt32LE(b: seq<byte>, off: nat): (r: Outcome<nat>)
    ensures r.Ok? <==> off + 4 <= |b|
    ensures r.Ok? ==> r.value < 0x1_0000_0000 && EncodeLE32(r.value) == b[off..off + 4]
  {
    if off + 4 <= |b| then
      LE32Injective(b[off..off + 4]);
      Ok(LE32(b[off..off + 4]))
    else OutOfRange
  }

  /** `buf.readUInt16LE(off)`: throws unless both bytes lie inside the buffer. */
  function ReadUInt16LE(b: seq<byte>, off: nat): (r: Outcome<nat>)
    ensures r.Ok? <==> off + 2 <= |b|
    ensures r.Ok? ==> r.value < 0x1_0000 && EncodeLE16(r.value) == b[off..off + 2]
  {
    if off + 2 <= |b| then
      LE16Injective(b[off..off + 2]);
      Ok(LE16(b[off..off + 2]))
    else OutOfRange
  }

  /** `buf.slice(start, end)` for the non-negative offsets the engine passes:
      both ends are clamped into the buffer, and a range that ends before it
      starts is empty; it never throws. (Node counts a negative offset from
      the end of the buffer; this clamps it to 0, a case the engine never
      reaches.) */
  function Slice(b: seq<byte>, start: int, end: int): (r: seq<byte>)
    ensures 0 <= start <= end <= |b| ==> r == b[start..end]
    ensures 0 <= start <= |b| <= end ==> r == b[start..]
    ensures end <= start || |b| <= start ==> r == []
  {
    var lo := if start < 0 then 0 else if start > |b| then |b| else start;
    var hi := if end < lo then lo else if end > |b| then |b| else end;
    b[lo..hi]
  }

  /** `!!buf[i]`: a byte inside the buffer is true when non-zero; past the
      end the read is `undefined`, which is false. */
  function Truthy(b: seq<byte>, i: nat): bool {
    i < |b| && b[i] != 0
  }
}
