/** The parts of Node's Buffer that the STUN codec relies on: big-endian
    reads that throw past the end, big-endian writes into a fixed buffer,
    and a clamping slice. */
module Buffers {

  /** A buffer element: Node exposes each byte as a number in 0..255. */
  type byte = x: int | 0 <= x < 0x100
  type uint16 = x: int | 0 <= x < 0x1_0000
  type uint32 = x: int | 0 <= x < 0x1_0000_0000

  /** A computation over buffers either yields a value or throws the
      RangeError Node raises when a read runs past the end of a buffer. */
  datatype Result<+T> = Ok(value: T) | OutOfRange {
    predicate IsFailure() {
      OutOfRange?
    }

    function PropagateFailure<U>(): Result<U>
      requires OutOfRange?
    {
      OutOfRange
    }

    function Extract(): T
      requires Ok?
    {
      value
    }
  }

  datatype Option<+T> = None | Some(value: T)

  function Min(a: int, b: int): int {
    if a <= b then a else b
  }

  /** The two bytes `writeUInt16BE(v)` stores, most significant first. */
  function UInt16Bytes(v: uint16): (r: seq<byte>)
    ensures |r| == 2
    ensures r[0] as int * 0x100 + r[1] as int == v
  {
    [v / 0x100, v % 0x100]
  }

  /** The four bytes `writeUInt32BE(v)` stores, most significant first. */
  function UInt32Bytes(v: uint32): (r: seq<byte>)
    ensures |r| == 4
    ensures r[0] as int * 0x100_0000 + r[1] as int * 0x1_0000 + r[2] as int * 0x100 + r[3] as int == v
  {
    var q1 := v / 0x100;
    var q2 := q1 / 0x100;
    assert q2 == v / 0x1_0000;
    [q2 / 0x100, q2 % 0x100, q1 % 0x100, v % 0x100]
  }

  /** `buffer.readUInt8(offset)`. */
  function ReadUInt8(b: seq<byte>, offset: nat): (r: Result<byte>)
    ensures r.Ok? <==> offset < |b|
    ensures r.Ok? ==> r.value == b[offset]
  {
    if offset < |b| then Ok(b[offset]) else OutOfRange
  }

  /** `buffer.readUInt16BE(offset)`: the inverse of `UInt16Bytes` on the
      two bytes at `offset`, and a RangeError when they are not there. */
  function ReadUInt16BE(b: seq<byte>, offset: nat): (r: Result<uint16>)
    ensures r.Ok? <==> offset + 2 <= |b|
    ensures r.Ok? ==> UInt16Bytes(r.value) == b[offset..offset + 2]
  {
    if offset + 2 <= |b| then
      Ok(b[offset] as int * 0x100 + b[offset + 1] as int)
    else
      OutOfRange
  }

  /** `buffer.readUInt32BE(offset)`: the inverse of `UInt32Bytes` on the
      four bytes at `offset`, and a RangeError when they are not there. */
  function ReadUInt32BE(b: seq<byte>, offset: nat): (r: Result<uint32>)
    ensures r.Ok? <==> offset + 4 <= |b|
    ensures r.Ok? ==> UInt32Bytes(r.value) == b[offset..offset + 4]
  {
    if offset + 4 <= |b| then
      Ok(b[offset] as int * 0x100_0000 + b[offset + 1] as int * 0x1_0000 + b[offset + 2] as int * 0x100 + b[offset + 3] as int)
    else
      OutOfRange
  }

  /** Reading back what was written gives the value written. */
  lemma ReadUInt16OfBytes(prefix: seq<byte>, v: uint16, suffix: seq<byte>)
    ensures ReadUInt16BE(prefix + UInt16Bytes(v) + suffix, |prefix|) == Ok(v)
  {
    var w := UInt16Bytes(v);
    var b := prefix + w + suffix;
    assert b[|prefix|] == w[0] && b[|prefix| + 1] == w[1];
  }

  lemma ReadUInt32OfBytes(prefix: seq<byte>, v: uint32, suffix: seq<byte>)
    ensures ReadUInt32BE(prefix + UInt32Bytes(v) + suffix, |prefix|) == Ok(v)
  {
    var w := UInt32Bytes(v);
    var b := prefix + w + suffix;
    var k := |prefix|;
    assert b[k] == w[0] && b[k + 1] == w[1] && b[k + 2] == w[2] && b[k + 3] == w[3];
  }

  /** `buffer.slice(start, end)`: never throws; both ends are clamped to
      the buffer, and an empty buffer results when nothing is left. */
  function Slice(b: seq<byte>, start: nat, end: nat): (r: seq<byte>)
    ensures |r| == if Min(end, |b|) <= start then 0 else Min(end, |b|) - start
    ensures forall i | 0 <= i < |r| :: r[i] == b[start + i]
  {
    if Min(end, |b|) <= start then [] else b[start..Min(end, |b|)]
  }

  lemma SliceWithin(b: seq<byte>, start: nat, end: nat)
    requires start <= end <= |b|
    ensures Slice(b, start, end) == b[start..end]
  {
  }

  /** `writeUInt16BE(value, offset)` on a buffer of fixed size. */
  method WriteUInt16BE(buf: array<byte>, value: uint16, offset: nat)
    requires offset + 2 <= buf.Length
    modifies buf
    ensures buf[..] == old(buf[..])[..offset] + UInt16Bytes(value) + old(buf[..])[offset + 2..]
  {
    buf[offset] := value / 0x100;
    buf[offset + 1] := value % 0x100;
  }

  /** `writeUInt32BE(value, offset)` on a buffer of fixed size. */
  method WriteUInt32BE(buf: array<byte>, value: uint32, offset: nat)
    requires offset + 4 <= buf.Length
    modifies buf
    ensures buf[..] == old(buf[..])[..offset] + UInt32Bytes(value) + old(buf[..])[offset + 4..]
  {
    var q1 := value / 0x100;
    var q2 := q1 / 0x100;
    buf[offset] := q2 / 0x100;
    buf[offset + 1] := q2 % 0x100;
    buf[offset + 2] := q1 % 0x100;
    buf[offset + 3] := value % 0x100;
  }
}
