/** Bytes, and the numbers stored in runs of them. */
module Bytes {

  newtype byte = b: int | 0 <= b < 256

  datatype ByteOrder = LittleEndian | BigEndian

  function U16(bo: ByteOrder, b: seq<byte>, i: nat): (v: nat)
    requires i + 2 <= |b|
    ensures v < 0x1_0000
  {
    match bo
    case LittleEndian => b[i] as int + 256 * b[i + 1] as int
    case BigEndian => 256 * b[i] as int + b[i + 1] as int
  }

  function U32(bo: ByteOrder, b: seq<byte>, i: nat): (v: nat)
    requires i + 4 <= |b|
    ensures v < 0x1_0000_0000
  {
    match bo
    case LittleEndian => U16(bo, b, i) + 0x1_0000 * U16(bo, b, i + 2)
    case BigEndian => 0x1_0000 * U16(bo, b, i) + U16(bo, b, i + 2)
  }

  /** Big-endian numbers have their most significant byte first; little-endian ones are those of the bytes reversed. */
  lemma {:induction false} NumbersAre(b: seq<byte>, i: nat)
    requires i + 4 <= |b|
    ensures U16(BigEndian, b, i) == 0x100 * b[i] as int + b[i + 1] as int
    ensures U16(LittleEndian, b, i) == U16(BigEndian, [b[i + 1], b[i]], 0)
    ensures U32(BigEndian, b, i) ==
            0x100_0000 * b[i] as int + 0x1_0000 * b[i + 1] as int + 0x100 * b[i + 2] as int + b[i + 3] as int
    ensures U32(LittleEndian, b, i) == U32(BigEndian, [b[i + 3], b[i + 2], b[i + 1], b[i]], 0)
  {
  }

  function Put16(bo: ByteOrder, v: nat): (b: seq<byte>)
    requires v < 0x1_0000
    ensures |b| == 2 && U16(bo, b, 0) == v
    ensures var high, low := v / 0x100, v % 0x100;
            b == if bo.BigEndian? then [high as byte, low as byte] else [low as byte, high as byte]
  {
    match bo
    case LittleEndian => [(v % 256) as byte, (v / 256) as byte]
    case BigEndian => [(v / 256) as byte, (v % 256) as byte]
  }

  function Put32(bo: ByteOrder, v: nat): (b: seq<byte>)
    requires v < 0x1_0000_0000
    ensures |b| == 4 && U32(bo, b, 0) == v
  {
    var lo, hi := Put16(bo, v % 0x1_0000), Put16(bo, v / 0x1_0000);
    match bo
    case LittleEndian => lo + hi
    case BigEndian => hi + lo
  }

  /** A number read from the middle of a buffer is the one put there. */
  lemma {:induction false} U16Within(bo: ByteOrder, before: seq<byte>, b: seq<byte>, after: seq<byte>, i: nat)
    requires i + 2 <= |b|
    ensures U16(bo, before + b + after, |before| + i) == U16(bo, b, i)
  {
    assert (before + b + after)[|before| + i] == b[i];
    assert (before + b + after)[|before| + i + 1] == b[i + 1];
  }

  lemma {:induction false} U32Within(bo: ByteOrder, before: seq<byte>, b: seq<byte>, after: seq<byte>, i: nat)
    requires i + 4 <= |b|
    ensures U32(bo, before + b + after, |before| + i) == U32(bo, b, i)
  {
    U16Within(bo, before, b, after, i);
    U16Within(bo, before, b, after, i + 2);
  }
}
