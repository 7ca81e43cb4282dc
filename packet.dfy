/** The STUN message: the 20-byte header, the classifier that tells STUN
    from other traffic on the same socket, and the `Packet` object with its
    encoder and decoder. */
module StunPacket {
  import opened Buffers
  import opened Bits
  import opened StunValues
  import opened StunAttributes

  const HEADER_LENGTH: nat := 20
  const MAGIC_KEY: uint32 := 0x2112A442
  /** Transaction ids are drawn below this bound. */
  const TID_MAX: nat := 0x1_0000_0000

  const BINDING_CLASS: int := 0x0001
  const METHOD_MASK: int := 0x0110
  const REQUEST: int := 0x0000
  const INDICATION: int := 0x0010
  const RESPONSE_S: int := 0x0100
  const RESPONSE_E: int := 0x0110

  /** The four values of the method table. */
  predicate IsMethod(m: int) {
    m == REQUEST || m == INDICATION || m == RESPONSE_S || m == RESPONSE_E
  }

  /** `_decodeHeader`'s result. */
  datatype Header = Header(stunMethod: int, length: uint16, magicKey: uint32, tid: uint32)

  /** The state of a `Packet` as a value: what decoding yields and what
      encoding reads. */
  datatype Message = Message(stunClass: int, stunMethod: int, attrs: Attributes, tid: uint32)

  /** `_isStunPacket`: the first byte is read (throwing on an empty buffer)
      and its two top bits are examined through `& 0x80` and `& 0x40`. */
  function IsStunPacket(buffer: seq<byte>): (r: Result<bool>)
    ensures r.Ok? <==> |buffer| > 0
    ensures r.Ok? ==> (r.value <==> buffer[0] < 0x40)
  {
    var block :- ReadUInt8(buffer, 0);
    var bit1 := And32(block, 0x80);
    var bit2 := And32(block, 0x40);
    TopBitsClear(block);
    Ok(bit1 == 0 && bit2 == 0)
  }

  /** The 16-bit type field `_encodeHeader` writes: `(method | class) & 0x3fff`,
      with JavaScript's 32-bit bitwise operators. */
  function TypeField(stunMethod: int, stunClass: int): (t: uint16)
    ensures t < 0x4000
  {
    TypeMaskBound(Or32(stunMethod, stunClass));
    And32(Or32(stunMethod, stunClass), 0x3fff)
  }

  lemma TypeMaskBound(o: uint32)
    ensures And32(o, 0x3fff) <= 0x3fff
  {
    assert ToUint32(o) == o && ToUint32(0x3fff) == 0x3fff;
    AndWithinMask(o, 0x3fff, 32);
  }

  /** The header layout: type, length, magic cookie, eight zero bytes and
      the 32-bit transaction id in the last four bytes. */
  function HeaderBytes(typeField: uint16, length: uint16, tid: uint32): seq<byte> {
    UInt16Bytes(typeField) + UInt16Bytes(length) + UInt32Bytes(MAGIC_KEY)
      + UInt32Bytes(0) + UInt32Bytes(0) + UInt32Bytes(tid)
  }

  /** What `encode` produces: the header over an empty attribute part. */
  function EncodeMessage(stunMethod: int, stunClass: int, tid: uint32): seq<byte> {
    HeaderBytes(TypeField(stunMethod, stunClass), 0, tid)
  }

  /** The type field of the bytes `h0 h1` keeps bit 8 (bit 0 of `h0`) and
      bit 4 (bit 4 of `h1`) under the method mask. */
  lemma MethodOfTypeField(h0: byte, h1: byte, x: uint16)
    requires UInt16Bytes(x) == [h0, h1]
    ensures And32(x, METHOD_MASK) == (h0 % 2) * 0x100 + (h1 / 0x10 % 2) * 0x10
    ensures IsMethod(And32(x, METHOD_MASK))
  {
    AndMethodMask(x);
    DivModUnique(x, 0x100, h0, h1);
    var q := h0 * 0x10 + h1 / 0x10;
    DivModUnique(x, 0x10, q, h1 % 0x10);
    DivModUnique(q, 2, h0 * 8 + h1 / 0x10 / 2, h1 / 0x10 % 2);
  }

  /** `_decodeHeader`: four reads, each of which throws when the buffer is
      too short; the method is the type field under `METHOD_MASK`, so it is
      always one of the four method values. The magic cookie is read but
      not compared with `MAGIC_KEY`. */
  function DecodeHeader(h: seq<byte>): (r: Result<Header>)
    ensures r.Ok? <==> |h| >= HEADER_LENGTH
    ensures r.Ok? ==> IsMethod(r.value.stunMethod)
    ensures r.Ok? ==> r.value.stunMethod == (h[0] as int % 2) * 0x100 + (h[1] as int / 0x10 % 2) * 0x10
    ensures r.Ok? ==> UInt16Bytes(r.value.length) == h[2..4]
    ensures r.Ok? ==> UInt32Bytes(r.value.magicKey) == h[4..8]
    ensures r.Ok? ==> UInt32Bytes(r.value.tid) == h[16..20]
  {
    var typeField :- ReadUInt16BE(h, 0);
    var length :- ReadUInt16BE(h, 2);
    var magicKey :- ReadUInt32BE(h, 4);
    var tid :- ReadUInt32BE(h, 16);
    MethodOfTypeField(h[0], h[1], typeField);
    Ok(Header(And32(typeField, METHOD_MASK), length, magicKey, tid))
  }

  /** `decode`: nothing when the classifier says the buffer is not STUN;
      otherwise the header is decoded from its first 20 bytes (clamped) and
      the attributes from the rest. The class is always `BINDING_CLASS`, and
      the transaction id is the one in the header. */
  function DecodeMessage(buffer: seq<byte>): (r: Result<Option<Message>>)
    ensures r.OutOfRange? <==>
      |buffer| == 0 ||
      (buffer[0] < 0x40 &&
       (|buffer| < HEADER_LENGTH || AttributesOf(buffer[..HEADER_LENGTH], buffer[HEADER_LENGTH..]).OutOfRange?))
    ensures (r.Ok? && r.value.None?) <==> IsStunPacket(buffer) == Ok(false)
    ensures r.Ok? && r.value.Some? ==>
      var m := r.value.value;
      && |buffer| >= HEADER_LENGTH
      && m.stunClass == BINDING_CLASS
      && IsMethod(m.stunMethod)
      && m.stunMethod == (buffer[0] as int % 2) * 0x100 + (buffer[1] as int / 0x10 % 2) * 0x10
      && UInt32Bytes(m.tid) == buffer[16..20]
      && Ok(m.attrs) == AttributesOf(buffer[..HEADER_LENGTH], buffer[HEADER_LENGTH..])
      && WellTyped(AsWritten, m.attrs)
  {
    var isStun :- IsStunPacket(buffer);
    if !isStun then Ok(None)
    else
      var headerBytes := Slice(buffer, 0, HEADER_LENGTH);
      var header :- DecodeHeader(headerBytes);
      var attrBytes := Slice(buffer, HEADER_LENGTH, |buffer|);
      SplitAtHeader(buffer);
      var attrs :- AttributesOf(headerBytes, attrBytes);
      WalkPreservesWellTyped(AsWritten, headerBytes, attrBytes, 0, map[]);
      Ok(Some(Message(BINDING_CLASS, header.stunMethod, attrs, header.tid)))
  }

  /** The two slices `decode` takes of a buffer at least a header long. */
  lemma SplitAtHeader(buffer: seq<byte>)
    requires |buffer| >= HEADER_LENGTH
    ensures Slice(buffer, 0, HEADER_LENGTH) == buffer[..HEADER_LENGTH]
    ensures Slice(buffer, HEADER_LENGTH, |buffer|) == buffer[HEADER_LENGTH..]
  {
    SliceWithin(buffer, 0, HEADER_LENGTH);
    SliceWithin(buffer, HEADER_LENGTH, |buffer|);
  }

  /** The layout of an encoded message, byte group by byte group. */
  lemma EncodeLayout(stunMethod: int, stunClass: int, tid: uint32)
    ensures var e := EncodeMessage(stunMethod, stunClass, tid);
      && |e| == HEADER_LENGTH
      && e[0..2] == UInt16Bytes(TypeField(stunMethod, stunClass))
      && e[0] < 0x40
      && e[2..4] == [0, 0]
      && e[4..8] == [0x21, 0x12, 0xA4, 0x42]
      && (forall i | 8 <= i < 16 :: e[i] == 0)
      && e[16..20] == UInt32Bytes(tid)
  {
    var t := TypeField(stunMethod, stunClass);
    HeaderLayout(t, 0, tid);
    assert UInt16Bytes(t)[0] == t / 0x100;
  }

  lemma HeaderLayout(t: uint16, length: uint16, tid: uint32)
    ensures var e := HeaderBytes(t, length, tid);
      && |e| == HEADER_LENGTH
      && e[0..2] == UInt16Bytes(t)
      && e[2..4] == UInt16Bytes(length)
      && e[4..8] == [0x21, 0x12, 0xA4, 0x42]
      && (forall i | 8 <= i < 16 :: e[i] == 0)
      && e[16..20] == UInt32Bytes(tid)
  {
    var e := HeaderBytes(t, length, tid);
    var a, b, c, z := UInt16Bytes(t), UInt16Bytes(length), UInt32Bytes(MAGIC_KEY), UInt32Bytes(0);
    assert c == [0x21, 0x12, 0xA4, 0x42];
    assert z == [0, 0, 0, 0];
    assert e == a + b + c + z + z + UInt32Bytes(tid);
    assert e[0..2] == a;
    assert e[2..4] == b;
    assert e[4..8] == c;
    assert e[16..20] == UInt32Bytes(tid);
  }

  /** What `encode` produces is classified as STUN. */
  lemma EncodedIsStun(stunMethod: int, stunClass: int, tid: uint32)
    ensures IsStunPacket(EncodeMessage(stunMethod, stunClass, tid)) == Ok(true)
  {
    EncodeLayout(stunMethod, stunClass, tid);
  }

  /** Decoding what `encode` produced gives back the transaction id, no
      attributes, the type field under the method mask, and the binding
      class whatever class was encoded. */
  lemma EncodeDecode(stunMethod: int, stunClass: int, tid: uint32)
    ensures DecodeMessage(EncodeMessage(stunMethod, stunClass, tid))
         == Ok(Some(Message(BINDING_CLASS, And32(TypeField(stunMethod, stunClass), METHOD_MASK), map[], tid)))
  {
    var t := TypeField(stunMethod, stunClass);
    var e := EncodeMessage(stunMethod, stunClass, tid);
    EncodeLayout(stunMethod, stunClass, tid);
    assert Slice(e, 0, HEADER_LENGTH) == e;
    assert Slice(e, HEADER_LENGTH, |e|) == [];
    ReadUInt16OfBytes([], t, e[2..]);
    assert [] + UInt16Bytes(t) + e[2..] == e;
    ReadUInt32OfBytes(e[..16], tid, []);
    assert e[..16] + UInt32Bytes(tid) + [] == e;
  }

  /** For a binding message, the type field is the method with the class
      bit set, and the method mask recovers the method from it. */
  lemma BindingTypeField(stunMethod: int)
    requires IsMethod(stunMethod)
    ensures TypeField(stunMethod, BINDING_CLASS) == stunMethod + 1
    ensures And32(stunMethod + 1, METHOD_MASK) == stunMethod
  {
    MethodBitsOfBinding(stunMethod);
    TypeFieldWithClassBit(stunMethod);
    MaskRecoversMethod(stunMethod);
  }

  lemma MaskRecoversMethod(m: nat)
    requires m < 0x3fff && ((m + 1) / 0x100 % 2) * 0x100 + ((m + 1) / 0x10 % 2) * 0x10 == m
    ensures And32(m + 1, METHOD_MASK) == m
  {
    AndMethodMask(m + 1);
  }

  lemma MethodBitsOfBinding(m: int)
    requires IsMethod(m)
    ensures m % 2 == 0 && 0 <= m < 0x3fff
    ensures ((m + 1) / 0x100 % 2) * 0x100 + ((m + 1) / 0x10 % 2) * 0x10 == m
  {
  }

  lemma TypeFieldWithClassBit(a: nat)
    requires a % 2 == 0 && a < 0x3fff
    ensures TypeField(a, BINDING_CLASS) == a + 1
  {
    OrWithOne(a);
    AndTypeMask(a + 1);
  }

  lemma OrWithOne(a: nat)
    requires a % 2 == 0 && a < 0x3fff
    ensures Or32(a, BINDING_CLASS) == a + 1
  {
    assert ToUint32(a) == a && ToUint32(BINDING_CLASS) == 1;
    Pow2Values();
    OrOne(a, 32);
  }

  lemma AndTypeMask(a: nat)
    requires a < 0x4000
    ensures And32(a, 0x3fff) == a
  {
    assert ToUint32(a) == a && ToUint32(0x3fff) == 0x3fff;
    Pow2Values();
    AndLowOnes(a, 14, 32);
    LowOfSmall(a, 14);
  }

  /** Every binding message of the method table survives a round trip. */
  lemma BindingRoundTrip(stunMethod: int, tid: uint32)
    requires IsMethod(stunMethod)
    ensures DecodeMessage(EncodeMessage(stunMethod, BINDING_CLASS, tid))
         == Ok(Some(Message(BINDING_CLASS, stunMethod, map[], tid)))
  {
    EncodeDecode(stunMethod, BINDING_CLASS, tid);
    BindingTypeField(stunMethod);
  }

  /** A binding message of the method table, byte by byte: the type
      field is the method with bit 0 set, the length is zero, then the
      magic cookie, eight zero bytes and the transaction id. */
  lemma BindingEncoding(stunMethod: int, tid: uint32)
    requires IsMethod(stunMethod)
    ensures EncodeMessage(stunMethod, BINDING_CLASS, tid)
         == [(stunMethod + 1) / 0x100, (stunMethod + 1) % 0x100, 0x00, 0x00, 0x21, 0x12, 0xA4, 0x42,
             0x00, 0x00, 0x00, 0x00, 0x00, 0x00, 0x00, 0x00] + UInt32Bytes(tid)
  {
    BindingTypeField(stunMethod);
    HeaderOfZeroLength(stunMethod + 1, tid);
  }

  /** A binding request with transaction id 0x11223344, byte by byte. */
  lemma RequestExample(stunMethod: int, tid: uint32)
    requires stunMethod == REQUEST && tid == 0x11223344
    ensures EncodeMessage(stunMethod, BINDING_CLASS, tid)
         == [0x00, 0x01, 0x00, 0x00, 0x21, 0x12, 0xA4, 0x42,
             0x00, 0x00, 0x00, 0x00, 0x00, 0x00, 0x00, 0x00,
             0x11, 0x22, 0x33, 0x44]
  {
    BindingEncoding(stunMethod, tid);
    TidBytesExample(tid);
    PrefixExample(stunMethod);
  }

  lemma TidBytesExample(tid: uint32)
    requires tid == 0x11223344
    ensures UInt32Bytes(tid) == [0x11, 0x22, 0x33, 0x44]
  {
  }

  lemma PrefixExample(stunMethod: int)
    requires stunMethod == REQUEST
    ensures [(stunMethod + 1) / 0x100, (stunMethod + 1) % 0x100, 0x00, 0x00, 0x21, 0x12, 0xA4, 0x42,
             0x00, 0x00, 0x00, 0x00, 0x00, 0x00, 0x00, 0x00]
         == [0x00, 0x01, 0x00, 0x00, 0x21, 0x12, 0xA4, 0x42,
             0x00, 0x00, 0x00, 0x00, 0x00, 0x00, 0x00, 0x00]
  {
  }

  lemma HeaderOfZeroLength(t: uint16, tid: uint32)
    ensures HeaderBytes(t, 0, tid)
         == [t / 0x100, t % 0x100, 0x00, 0x00, 0x21, 0x12, 0xA4, 0x42,
             0x00, 0x00, 0x00, 0x00, 0x00, 0x00, 0x00, 0x00] + UInt32Bytes(tid)
  {
    assert UInt32Bytes(MAGIC_KEY) == [0x21, 0x12, 0xA4, 0x42];
    assert UInt32Bytes(0) == [0x00, 0x00, 0x00, 0x00];
    assert UInt16Bytes(0) == [0x00, 0x00];
  }

  /** The length field (bytes 2 and 3) is never consulted: replacing it
      does not change what `decode` yields. */
  lemma LengthFieldIgnored(buffer: seq<byte>, length: seq<byte>)
    requires |buffer| >= 4 && |length| == 2
    ensures DecodeMessage(buffer[..2] + length + buffer[4..]) == DecodeMessage(buffer)
  {
    var b := buffer[..2] + length + buffer[4..];
    assert b[0] == buffer[0] && b[1] == buffer[1] && b[4..] == buffer[4..];
    SameOutsideLength(b, buffer);
  }

  lemma SameOutsideLength(b: seq<byte>, b': seq<byte>)
    requires |b| == |b'| >= 4 && b[0] == b'[0] && b[1] == b'[1] && b[4..] == b'[4..]
    ensures DecodeMessage(b) == DecodeMessage(b')
  {
    if |b| < HEADER_LENGTH || b[0] >= 0x40 {
      ShortOrForeign(b);
      ShortOrForeign(b');
    } else {
      SameAttributesAndTid(b, b');
      DecodeStunMessage(b);
      DecodeStunMessage(b');
    }
  }

  lemma SameAttributesAndTid(b: seq<byte>, b': seq<byte>)
    requires |b| == |b'| >= HEADER_LENGTH && b[4..] == b'[4..]
    ensures AttributesOf(b[..HEADER_LENGTH], b[HEADER_LENGTH..]) == AttributesOf(b'[..HEADER_LENGTH], b'[HEADER_LENGTH..])
    ensures ReadUInt32BE(b, 16) == ReadUInt32BE(b', 16)
  {
    var h, h' := b[..HEADER_LENGTH], b'[..HEADER_LENGTH];
    assert b[HEADER_LENGTH..] == b[4..][HEADER_LENGTH - 4..];
    assert b'[HEADER_LENGTH..] == b'[4..][HEADER_LENGTH - 4..];
    assert h[4..] == b[4..][..HEADER_LENGTH - 4];
    assert h'[4..] == b'[4..][..HEADER_LENGTH - 4];
    WalkIgnoresHeaderStart(AsWritten, h, h', b[HEADER_LENGTH..], 0, map[]);
    assert b[16] == b[4..][12] && b[17] == b[4..][13] && b[18] == b[4..][14] && b[19] == b[4..][15];
    assert b'[16] == b'[4..][12] && b'[17] == b'[4..][13] && b'[18] == b'[4..][14] && b'[19] == b'[4..][15];
  }

  /** `decode` on a buffer the classifier rejects, or too short for a header. */
  lemma ShortOrForeign(buffer: seq<byte>)
    requires |buffer| > 0 && (|buffer| < HEADER_LENGTH || buffer[0] >= 0x40)
    ensures DecodeMessage(buffer) == if buffer[0] >= 0x40 then Ok(None) else OutOfRange
  {
  }

  /** `decode` on a buffer the classifier accepts and that holds a whole
      header, component by component. */
  lemma DecodeStunMessage(buffer: seq<byte>)
    requires |buffer| >= HEADER_LENGTH && buffer[0] < 0x40
    ensures DecodeMessage(buffer) ==
      match AttributesOf(buffer[..HEADER_LENGTH], buffer[HEADER_LENGTH..])
      case OutOfRange => OutOfRange
      case Ok(attrs) =>
        Ok(Some(Message(BINDING_CLASS, (buffer[0] as int % 2) * 0x100 + (buffer[1] as int / 0x10 % 2) * 0x10,
                        attrs, ReadUInt32BE(buffer, 16).value)))
  {
    SplitAtHeader(buffer);
    var h := buffer[..HEADER_LENGTH];
    assert h[16..20] == buffer[16..20];
    ReadUInt32OfBytes(buffer[..16], ReadUInt32BE(h, 16).value, buffer[20..]);
    assert buffer[..16] + buffer[16..20] + buffer[20..] == buffer;
  }

  /** The magic cookie is never compared with `MAGIC_KEY`: any 20-byte
      buffer whose two top bits are clear decodes, to a message without
      attributes. */
  lemma CookieNotChecked(buffer: seq<byte>)
    requires |buffer| == HEADER_LENGTH && buffer[0] < 0x40
    ensures DecodeMessage(buffer).Ok? && DecodeMessage(buffer).value.Some?
    ensures DecodeMessage(buffer).value.value.attrs == map[]
  {
    assert buffer[HEADER_LENGTH..] == [];
    assert buffer[..HEADER_LENGTH] == buffer;
  }

  /** A STUN packet: its class, method, attribute map and transaction id. */
  class Packet {
    var stunClass: int
    var stunMethod: int
    var attrs: Attributes
    var tid: uint32

    /** `new Packet(class, method, attrs)`; a missing attribute map becomes
        empty. `tid` stands for the id `_getTransactionId` draws below
        `TID_MAX`, which is why it is a `uint32`. */
    constructor (stunClass: int, stunMethod: int, attrs: Option<Attributes>, tid: uint32)
      ensures this.stunClass == stunClass && this.stunMethod == stunMethod && this.tid == tid
      ensures this.attrs == if attrs.Some? then attrs.value else map[]
    {
      this.stunClass := stunClass;
      this.stunMethod := stunMethod;
      this.attrs := if attrs.Some? then attrs.value else map[];
      this.tid := tid;
    }

    function Value(): Message
      reads this
    {
      Message(stunClass, stunMethod, attrs, tid)
    }

    /** The `address` property. */
    function GetAddress(): Option<AttrValue>
      reads this
    {
      AddressOf(attrs)
    }

    /** The `software` property. */
    function GetSoftware(): Option<AttrValue>
      reads this
    {
      SoftwareOf(attrs)
    }

    /** `_encodeHeader(length)`: a fresh 20-byte buffer filled by six
        big-endian writes. */
    method EncodeHeader(length: uint16) returns (header: array<byte>)
      ensures fresh(header)
      ensures header[..] == HeaderBytes(TypeField(stunMethod, stunClass), length, tid)
    {
      var typeField := Or32(stunMethod, stunClass);
      var masked := And32(typeField, 0x3fff);
      assert masked == TypeField(stunMethod, stunClass);
      header := new byte[HEADER_LENGTH];
      WriteUInt16BE(header, masked, 0);
      ghost var written := UInt16Bytes(masked);
      assert header[..2] == written;
      WriteUInt16BE(header, length, 2);
      written := written + UInt16Bytes(length);
      assert header[..4] == written;
      WriteUInt32BE(header, MAGIC_KEY, 4);
      written := written + UInt32Bytes(MAGIC_KEY);
      assert header[..8] == written;
      WriteUInt32BE(header, 0, 8);
      written := written + UInt32Bytes(0);
      assert header[..12] == written;
      WriteUInt32BE(header, 0, 12);
      written := written + UInt32Bytes(0);
      assert header[..16] == written;
      WriteUInt32BE(header, tid, 16);
      assert header[..] == written + UInt32Bytes(tid);
    }

    /** `_encodeAttributes`: attribute encoding is not implemented, so the
        attribute part is always empty. */
    method EncodeAttributes() returns (encoded: seq<byte>)
      ensures encoded == []
    {
      encoded := [];
    }

    /** `encode`: the header, whose length field is the attribute part's
        length, followed by the attribute part. */
    method Encode() returns (encoded: seq<byte>)
      ensures encoded == EncodeMessage(stunMethod, stunClass, tid)
    {
      var encodedAttrs := EncodeAttributes();
      var encodedHeader := EncodeHeader(|encodedAttrs|);
      encoded := encodedHeader[..] + encodedAttrs;
    }

    /** `Packet.decode(buffer)`: `null` when the buffer is not STUN; the
        constructor draws a transaction id (`drawnTid`), which is then
        replaced by the one in the header. */
    static method Decode(buffer: seq<byte>, drawnTid: uint32) returns (r: Result<Packet?>)
      ensures r.Ok? <==> DecodeMessage(buffer).Ok?
      ensures r.Ok? ==> (r.value == null <==> DecodeMessage(buffer).value.None?)
      ensures r.Ok? && r.value != null ==> fresh(r.value) && r.value.Value() == DecodeMessage(buffer).value.value
    {
      var isStun := IsStunPacket(buffer);
      if isStun.OutOfRange? {
        return OutOfRange;
      }
      if !isStun.value {
        return Ok(null);
      }
      var headerBytes := Slice(buffer, 0, HEADER_LENGTH);
      var header := DecodeHeader(headerBytes);
      if header.OutOfRange? {
        return OutOfRange;
      }
      var attrs := DecodeAttributes(headerBytes, Slice(buffer, HEADER_LENGTH, |buffer|));
      if attrs.OutOfRange? {
        return OutOfRange;
      }
      var packet := new Packet(BINDING_CLASS, header.value.stunMethod, Some(attrs.value), drawnTid);
      packet.tid := header.value.tid;
      return Ok(packet);
    }
  }
}
