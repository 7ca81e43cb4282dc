/** Decoders for the attribute values the STUN codec interprets:
    MAPPED-ADDRESS, XOR-MAPPED-ADDRESS (section 15.2 of RFC 5389),
    ERROR-CODE and UNKNOWN-ATTRIBUTES, with the encoders they invert. */
module StunValues {
  import opened Buffers
  import opened Bits

  /** A decoded transport address. The textual rendering of `address` is
      left to the caller; the model keeps the raw address bytes. */
  datatype Address = Address(family: int, port: uint16, address: seq<byte>)

  /** What `_decodeErrorCode` returns: a code and the 32-bit integer read
      at offset 4 of the value. */
  datatype ErrorCode = ErrorCode(code: int, reason: uint32)

  /** An ERROR-CODE value as section 15.6 of RFC 5389 lays it out: the
      code `class * 100 + number` and the reason phrase bytes. */
  datatype ErrorValue = ErrorValue(code: int, reason: seq<byte>)

  /** The family a value announces: 6 when its first 16 bits read 0x0002,
      4 for anything else. */
  function Family(first: uint16): int {
    if first == 0x02 then 6 else 4
  }

  /** Number of address bytes of a family. */
  function AddressLength(family: int): nat {
    if family == 4 then 4 else 16
  }

  /** An address the wire format can carry. */
  predicate ValidAddress(a: Address) {
    (a.family == 4 || a.family == 6) && |a.address| == AddressLength(a.family)
  }

  /** The family byte that `Family` maps back to `family`. */
  function FamilyCode(family: int): byte {
    if family == 6 then 0x02 else 0x01
  }

  /** `_decodeMappedAddress`: the family from bytes 0-1, the port from bytes
      2-3, then 4 (IPv4) or 16 (IPv6) address bytes; fewer when the value is
      short, since the address is read through a clamped slice. */
  function DecodeMappedAddress(value: seq<byte>): (r: Result<Address>)
    ensures r.Ok? <==> |value| >= 4
    ensures r.Ok? ==> r.value.family == (if value[0] == 0 && value[1] == 2 then 6 else 4)
    ensures r.Ok? ==> UInt16Bytes(r.value.port) == value[2..4]
    ensures r.Ok? ==> |r.value.address| <= AddressLength(r.value.family)
    ensures r.Ok? ==> r.value.address == value[4..Min(4 + AddressLength(r.value.family), |value|)]
  {
    var first :- ReadUInt16BE(value, 0);
    var family := Family(first);
    var port :- ReadUInt16BE(value, 2);
    Ok(Address(family, port, Slice(value, 4, 4 + AddressLength(family))))
  }

  /** The MAPPED-ADDRESS value a server sends for `a`. */
  function MappedAddressBytes(a: Address): seq<byte> {
    [0, FamilyCode(a.family)] + UInt16Bytes(a.port) + a.address
  }

  /** Decoding a MAPPED-ADDRESS value gives back the address it was built
      from, whatever padding follows it. */
  lemma MappedAddressRoundTrip(a: Address, padding: seq<byte>)
    requires ValidAddress(a)
    ensures DecodeMappedAddress(MappedAddressBytes(a) + padding) == Ok(a)
  {
    var v := MappedAddressBytes(a) + padding;
    ReadUInt16OfBytes([], 0x0000 + FamilyCode(a.family), v[2..]);
    assert v[..2] + v[2..] == v;
    ReadUInt16OfBytes(v[..2], a.port, v[4..]);
    assert v[..2] + UInt16Bytes(a.port) + v[4..] == v;
    assert v[4..4 + AddressLength(a.family)] == a.address;
  }

  /** `00 01 1F 90 7F 00 00 01` is IPv4,
      port 8080, address 127.0.0.1. */
  lemma MappedAddressExample()
    ensures DecodeMappedAddress([0x00, 0x01, 0x1F, 0x90, 0x7F, 0x00, 0x00, 0x01])
         == Ok(Address(4, 8080, [127, 0, 0, 1]))
  {
    MappedAddressRoundTrip(Address(4, 8080, [127, 0, 0, 1]), []);
    assert MappedAddressBytes(Address(4, 8080, [127, 0, 0, 1])) + []
        == [0x00, 0x01, 0x1F, 0x90, 0x7F, 0x00, 0x00, 0x01];
  }

  /** `_decodeXorMappedAddress`: like `DecodeMappedAddress`, but the port is
      XORed with header bytes 4-5 and the address with header bytes 4-7
      (IPv4) or 4-19 (IPv6), i.e. the magic cookie and transaction id. */
  function DecodeXorMappedAddress(header: seq<byte>, value: seq<byte>): (r: Result<Address>)
    ensures r.Ok? <==> |value| >= 4 && |header| >= 6
    ensures r.Ok? ==> r.value.family == (if value[0] == 0 && value[1] == 2 then 6 else 4)
    ensures r.Ok? ==> UInt16Bytes(r.value.port) == Xor(value[2..4], header[4..6])
    ensures r.Ok? ==> |r.value.address| <= AddressLength(r.value.family)
    ensures r.Ok? ==> r.value.address == Xor(value[4..Min(4 + AddressLength(r.value.family), |value|)],
                                             header[4..Min(4 + AddressLength(r.value.family), |header|)])
  {
    var first :- ReadUInt16BE(value, 0);
    var family := Family(first);
    var addr := if family == 4 then Xor(Slice(value, 4, 4 + 4), Slice(header, 4, 4 + 4))
                else Xor(Slice(value, 4, 4 + 16), Slice(header, 4, 4 + 16));
    var port :- ReadUInt16BE(Xor(Slice(value, 2, 2 + 2), Slice(header, 4, 4 + 2)), 0);
    Ok(Address(family, port, addr))
  }

  /** The XOR-MAPPED-ADDRESS value a server sends for `a` in a message
      whose 20-byte header is `header`. */
  function XorMappedAddressBytes(header: seq<byte>, a: Address): seq<byte>
    requires |header| >= 20
  {
    [0, FamilyCode(a.family)] + Xor(UInt16Bytes(a.port), header[4..6])
      + Xor(a.address, header[4..4 + AddressLength(a.family)])
  }

  /** Decoding undoes the obfuscation: the same XOR applied twice restores
      the port and the address the server put in. */
  lemma XorMappedAddressRoundTrip(header: seq<byte>, a: Address, padding: seq<byte>)
    requires |header| >= 20
    requires ValidAddress(a)
    ensures DecodeXorMappedAddress(header, XorMappedAddressBytes(header, a) + padding) == Ok(a)
  {
    var n := AddressLength(a.family);
    var xport := Xor(UInt16Bytes(a.port), header[4..6]);
    var xaddr := Xor(a.address, header[4..4 + n]);
    var v := XorMappedAddressBytes(header, a) + padding;
    assert v == [0, FamilyCode(a.family)] + xport + xaddr + padding;
    ReadUInt16OfBytes([], 0x0000 + FamilyCode(a.family), v[2..]);
    assert v[..2] + v[2..] == v;
    XorPortRestored(header, a.port, v);
    XorAddressRestored(header, a, v);
  }

  lemma XorPortRestored(header: seq<byte>, port: uint16, v: seq<byte>)
    requires |header| >= 20 && |v| >= 4
    requires v[2..4] == Xor(UInt16Bytes(port), header[4..6])
    ensures ReadUInt16BE(Xor(Slice(v, 2, 4), Slice(header, 4, 6)), 0) == Ok(port)
  {
    SliceWithin(v, 2, 4);
    SliceWithin(header, 4, 6);
    XorSelfInverse(UInt16Bytes(port), header[4..6]);
    ReadUInt16OfBytes([], port, []);
    assert [] + UInt16Bytes(port) + [] == UInt16Bytes(port);
  }

  lemma XorAddressRestored(header: seq<byte>, a: Address, v: seq<byte>)
    requires |header| >= 20 && ValidAddress(a)
    requires |v| >= 4 + AddressLength(a.family)
    requires v[4..4 + AddressLength(a.family)] == Xor(a.address, header[4..4 + AddressLength(a.family)])
    ensures Xor(Slice(v, 4, 4 + AddressLength(a.family)), Slice(header, 4, 4 + AddressLength(a.family))) == a.address
  {
    var n := AddressLength(a.family);
    SliceWithin(v, 4, 4 + n);
    SliceWithin(header, 4, 4 + n);
    XorSelfInverse(a.address, header[4..4 + n]);
  }

  /** Header bytes before offset 4 do not take part in the XOR. */
  lemma XorAddressIgnoresHeaderStart(header: seq<byte>, header': seq<byte>, value: seq<byte>)
    requires |header| == |header'| >= 4 && header[4..] == header'[4..]
    ensures DecodeXorMappedAddress(header, value) == DecodeXorMappedAddress(header', value)
  {
    SliceAfterFour(header, header', 4, 6);
    SliceAfterFour(header, header', 4, 8);
    SliceAfterFour(header, header', 4, 20);
  }

  lemma SliceAfterFour(header: seq<byte>, header': seq<byte>, start: nat, end: nat)
    requires |header| == |header'| >= 4 && header[4..] == header'[4..] && start >= 4
    ensures Slice(header, start, end) == Slice(header', start, end)
  {
    var a, b := Slice(header, start, end), Slice(header', start, end);
    forall i | 0 <= i < |a| ensures a[i] == b[i] {
      assert header[start + i] == header[4..][start + i - 4];
      assert header'[start + i] == header'[4..][start + i - 4];
    }
  }

  /** With the magic cookie 0x2112A442 in header bytes 4-7, the port is the
      raw port XOR 0x2112, byte by byte. */
  lemma XorPortUsesCookie(header: seq<byte>, value: seq<byte>)
    requires |header| >= 20 && header[4..8] == [0x21, 0x12, 0xA4, 0x42]
    requires |value| >= 4
    ensures DecodeXorMappedAddress(header, value).Ok?
    ensures UInt16Bytes(DecodeXorMappedAddress(header, value).value.port)
         == [XorByte(value[2], 0x21), XorByte(value[3], 0x12)]
  {
    assert header[4] == header[4..8][0] && header[5] == header[4..8][1];
    assert header[4..6] == [0x21, 0x12];
  }

  /** `_decodeErrorCode` as written: `(block & 0x700) * 100 + block & 0xff`
      groups as `((block & 0x700) * 100 + block) & 0xff`, so the class
      bits are multiplied away and only the number byte survives; the
      reason is then read as a 32-bit integer. */
  function DecodeErrorCode(value: seq<byte>): (r: Result<ErrorCode>)
    ensures r.Ok? <==> |value| >= 8
    ensures r.Ok? ==> r.value.code == value[3]
    ensures r.Ok? ==> UInt32Bytes(r.value.reason) == value[4..8]
  {
    var block :- ReadUInt32BE(value, 0);
    var code := And32(And32(block, 0x700) * 100 + block, 0xff);
    CodeIsNumberByte(block);
    var reason :- ReadUInt32BE(value, 4);
    Ok(ErrorCode(code, reason))
  }

  /** The class term of the grouping as written is a multiple of 256, so
      the final `& 0xff` sees only the number byte. */
  lemma CodeIsNumberByte(block: uint32)
    ensures And32(And32(block, 0x700) * 100 + block, 0xff) == UInt32Bytes(block)[3]
  {
    AndClassMask(block);
    var c: int := block / 0x100 % 8;
    assert And32(block, 0x700) * 100 + block == c * 0x6400 + block;
    AndLowByte(c * 0x6400 + block);
    MultipleOf256Vanishes(c, block);
  }

  lemma MultipleOf256Vanishes(c: int, block: uint32)
    requires 0 <= c < 8
    ensures ToUint32(c * 0x6400 + block) % 0x100 == block % 0x100
  {
    var sum := c * 0x6400 + block;
    WrapOnce(sum);
    var q := block / 0x100;
    assert block == 0x100 * q + block % 0x100;
    if sum < 0x1_0000_0000 {
      assert ToUint32(sum) == 0x100 * (c * 100 + q) + block % 0x100;
      ModOfMultiplePlus(c * 100 + q, block % 0x100);
    } else {
      assert ToUint32(sum) == 0x100 * (c * 100 + q - 0x100_0000) + block % 0x100;
      ModOfMultiplePlus(c * 100 + q - 0x100_0000, block % 0x100);
    }
  }

  /** The ERROR-CODE value of section 15.6 of RFC 5389: two zero bytes,
      the class in the low bits of byte 2, the number in byte 3, then the
      reason phrase. */
  function ErrorCodeBytes(errorClass: byte, number: byte, reason: seq<byte>): seq<byte> {
    [0, 0, errorClass, number] + reason
  }

  /** The evidently intended ERROR-CODE decoder: code = class * 100 +
      number, reason phrase = the bytes after the first word. */
  function DecodeErrorCodeRfc(value: seq<byte>): (r: Result<ErrorValue>)
    ensures r.Ok? <==> |value| >= 4
    ensures r.Ok? ==> r.value.code == (value[2] as int % 8) * 100 + value[3] as int
    ensures r.Ok? ==> r.value.reason == value[4..]
  {
    var block :- ReadUInt32BE(value, 0);
    var errorClass: int := And32(block, 0x700) / 0x100;
    var number: int := And32(block, 0xff);
    ErrorFieldsOfBlock(block, value);
    Ok(ErrorValue(errorClass * 100 + number, value[4..]))
  }

  /** The class and number that `& 0x700` and `& 0xff` pick out of the
      first word of a value are bytes 2 and 3 of the value. */
  lemma ErrorFieldsOfBlock(block: uint32, value: seq<byte>)
    requires |value| >= 4 && UInt32Bytes(block) == value[0..4]
    ensures And32(block, 0x700) / 0x100 == value[2] as int % 8
    ensures And32(block, 0xff) == value[3]
  {
    AndClassMask(block);
    AndLowByte(block);
    var w := UInt32Bytes(block);
    assert value[2] == w[2] && value[3] == w[3];
    var q := block / 0x100;
    assert w[2] == q % 0x100;
    ModEightOfByte(q);
    assert (q % 8) * 0x100 / 0x100 == q % 8;
  }

  lemma ModEightOfByte(q: int)
    ensures q % 0x100 % 8 == q % 8
  {
  }

  /** The intended decoder recovers every code of RFC 5389 (class 3 to 6,
      number 0 to 99) and the reason phrase, even an empty one. */
  lemma ErrorCodeRfcRoundTrip(errorClass: byte, number: byte, reason: seq<byte>)
    requires 3 <= errorClass <= 6 && number < 100
    ensures DecodeErrorCodeRfc(ErrorCodeBytes(errorClass, number, reason))
         == Ok(ErrorValue(errorClass as int * 100 + number as int, reason))
  {
    var v := ErrorCodeBytes(errorClass, number, reason);
    assert v[2] == errorClass && v[3] == number && v[4..] == reason;
    DecodedErrorValue(v);
    SmallModEight(errorClass);
    var code: int := (v[2] as int % 8) * 100 + v[3] as int;
    assert code == errorClass as int * 100 + number as int;
    assert DecodeErrorCodeRfc(v) == Ok(ErrorValue(code, reason));
  }

  lemma SmallModEight(c: int)
    requires 0 <= c < 8
    ensures c % 8 == c
  {
  }

  lemma DecodedErrorValue(v: seq<byte>)
    requires |v| >= 4
    ensures DecodeErrorCodeRfc(v) == Ok(ErrorValue((v[2] as int % 8) * 100 + v[3] as int, v[4..]))
  {
    var r := DecodeErrorCodeRfc(v);
    assert r == Ok(ErrorValue(r.value.code, r.value.reason));
  }

  /** As written, error 420 with a 4-byte reason decodes as code 20, and
      error 400 with an empty reason phrase throws. */
  lemma ErrorCodeAsWrittenLosesClass()
    ensures DecodeErrorCode(ErrorCodeBytes(4, 20, [0x42, 0x61, 0x64, 0x20])).Ok?
    ensures DecodeErrorCode(ErrorCodeBytes(4, 20, [0x42, 0x61, 0x64, 0x20])).value.code == 20
    ensures DecodeErrorCodeRfc(ErrorCodeBytes(4, 20, [0x42, 0x61, 0x64, 0x20])).value.code == 420
    ensures DecodeErrorCode(ErrorCodeBytes(4, 0, [])) == OutOfRange
    ensures DecodeErrorCodeRfc(ErrorCodeBytes(4, 0, [])) == Ok(ErrorValue(400, []))
  {
    ErrorCodeRfcRoundTrip(4, 20, [0x42, 0x61, 0x64, 0x20]);
    ErrorCodeRfcRoundTrip(4, 0, []);
  }

  /** The UNKNOWN-ATTRIBUTES value carrying `codes`: each as two bytes. */
  function UInt16ListBytes(codes: seq<uint16>): (r: seq<byte>)
    ensures |r| == 2 * |codes|
  {
    if codes == [] then [] else UInt16Bytes(codes[0]) + UInt16ListBytes(codes[1..])
  }

  /** The 16-bit codes of an UNKNOWN-ATTRIBUTES value, in order; an odd
      trailing byte makes the last read run past the end. */
  function UnknownAttributeCodes(value: seq<byte>): (r: Result<seq<uint16>>)
    ensures r.Ok? <==> |value| % 2 == 0
    ensures r.Ok? ==> |r.value| == |value| / 2
    ensures r.Ok? ==> forall i | 0 <= i < |r.value| :: ReadUInt16BE(value, 2 * i) == Ok(r.value[i])
    decreases |value|
  {
    if |value| == 0 then Ok([])
    else
      var code :- ReadUInt16BE(value, 0);
      var rest :- UnknownAttributeCodes(value[2..]);
      Ok([code] + rest)
  }

  /** Decoding a list of codes gives back the list. */
  lemma {:induction false} UnknownAttributesRoundTrip(codes: seq<uint16>)
    ensures UnknownAttributeCodes(UInt16ListBytes(codes)) == Ok(codes)
  {
    if codes != [] {
      var v := UInt16ListBytes(codes);
      ReadUInt16OfBytes([], codes[0], UInt16ListBytes(codes[1..]));
      assert v == [] + UInt16Bytes(codes[0]) + UInt16ListBytes(codes[1..]);
      assert v[2..] == UInt16ListBytes(codes[1..]);
      UnknownAttributesRoundTrip(codes[1..]);
      assert [codes[0]] + codes[1..] == codes;
    }
  }

  /** `_decodeUnknownAttributes`: a loop that reads a 16-bit code every two
      bytes and pushes it, until the offset reaches the end. */
  method DecodeUnknownAttributes(value: seq<byte>) returns (r: Result<seq<uint16>>)
    ensures r == UnknownAttributeCodes(value)
    ensures r.Ok? <==> |value| % 2 == 0
    ensures r.Ok? ==> |r.value| == |value| / 2
    ensures r.Ok? ==> forall i | 0 <= i < |r.value| :: ReadUInt16BE(value, 2 * i) == Ok(r.value[i])
  {
    var unknownAttrs: seq<uint16> := [];
    var offset := 0;
    while offset < |value|
      invariant offset == 2 * |unknownAttrs| <= |value|
      invariant forall i | 0 <= i < |unknownAttrs| :: ReadUInt16BE(value, 2 * i) == Ok(unknownAttrs[i])
    {
      var code := ReadUInt16BE(value, offset);
      if code.OutOfRange? {
        assert |value| == offset + 1;
        return OutOfRange;
      }
      unknownAttrs := unknownAttrs + [code.value];
      offset := offset + 2;
    }
    r := Ok(unknownAttrs);
    var expected := UnknownAttributeCodes(value);
    assert |value| == 2 * |unknownAttrs| && expected.Ok?;
    assert forall i | 0 <= i < |unknownAttrs| :: unknownAttrs[i] == expected.value[i];
    assert unknownAttrs == expected.value;
  }
}
