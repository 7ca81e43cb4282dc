# STUN message codec

A Dafny model of the STUN message codec of node-stun (`lib/packet.js`).
STUN (RFC 5389) is the protocol a client uses to learn the address a NAT
gives it. The model covers:

- the 20-byte header that `_encodeHeader` writes;
- `encode` and `_encodeAttributes`, whose attribute part is always empty;
- the two-bit classifier `_isStunPacket`;
- `_decodeHeader`, and `decode`, which builds a `Packet` from a received buffer;
- the attribute walk `_decodeAttributes` and the value decoders for
  MAPPED-ADDRESS, XOR-MAPPED-ADDRESS, SOFTWARE, ERROR-CODE and
  UNKNOWN-ATTRIBUTES;
- the `address` and `software` getters.

Files:

- `buffers.dfy` (module `Buffers`): the parts of Node's `Buffer` the codec
  uses. Big-endian reads yield `OutOfRange` where Node throws a RangeError.
  `slice` clamps. `writeUInt16BE`/`writeUInt32BE` write into an `array`.
- `bits.dfy` (module `Bits`): JavaScript's `&`, `|` and the byte-wise XOR
  of the `bitwise-xor` library. They are defined bit by bit on integers:
  both operands are taken modulo 2^32 first, as JavaScript's ToInt32
  does. The module also proves the mask facts the codec relies on.
- `values.dfy` (module `StunValues`): the per-type value decoders.
- `attributes.dfy` (module `StunAttributes`): the record walk, as a
  function `Walk` and as the imperative `DecodeAttributes` loop proved
  equal to it, plus the `address` and `software` getters.
- `packet.dfy` (module `StunPacket`): the constants, header encoder and
  decoder, classifier, message decoder and the `Packet` class. The class
  has the constructor, `EncodeHeader`, `EncodeAttributes`, `Encode` and
  the static `Decode`.

### Code quirks and how the model handles them

Where the code departs from RFC 5389, the model follows the code.

- **Case labels.** `Packet.ATTR_ERROR_CODE` and `Packet.UNKNOWN_ATTRIBUTES`
  (lib/packet.js:182, 185) are undefined properties, so those two cases
  never match. ERROR-CODE and UNKNOWN-ATTRIBUTES values are stored as raw
  bytes.
- **Padding.** The value slice uses the padded length, so the stored bytes
  include the padding, which section 15 of RFC 5389 excludes from the value.
- **Unchecked header fields.** The length field and the magic cookie are
  read but never checked.
- **Decoded class.** The decoded class is always `BINDING_CLASS`.
- **Transaction id.** The transaction id the constructor draws is replaced
  by the one in the header.

### The `Dispatch` parameter

The record walk takes a `Dispatch` parameter:

- `AsWritten` is what the program does.
- `Intended` is the RFC 5389 reading: values sliced to their declared
  length, and ERROR-CODE and UNKNOWN-ATTRIBUTES decoded.

The lemmas about the walk (success, last write wins, well-typed values,
header independence) are proved for both. `decode` uses `AsWritten`,
because that is the behaviour of the program.

## Model

| member | source | states |
|---|---|---|
| Buffers.UInt16Bytes | lib/packet.js:97-98 | the two bytes written for a 16-bit value, high byte first, read back as that value |
| Buffers.UInt32Bytes | lib/packet.js:99-102 | the four bytes written for a 32-bit value, most significant first, read back as that value |
| Buffers.ReadUInt8 | lib/packet.js:117 | `readUInt8` succeeds exactly when the offset is inside the buffer, and yields that byte |
| Buffers.ReadUInt16BE | lib/packet.js:159 | `readUInt16BE` succeeds exactly when two bytes are present at the offset; the value's big-endian bytes are those two bytes |
| Buffers.ReadUInt32BE | lib/packet.js:146-148 | `readUInt32BE` succeeds exactly when four bytes are present; the value's big-endian bytes are those four bytes |
| Buffers.ReadUInt16OfBytes | lib/packet.js:145 | reading 16 bits where a 16-bit value was written yields that value |
| Buffers.ReadUInt32OfBytes | lib/packet.js:148 | reading 32 bits where a 32-bit value was written yields that value |
| Buffers.Slice | lib/packet.js:169 | `slice` never fails; its length is the clamped range and its bytes are the buffer's bytes from `start` |
| Buffers.SliceWithin | lib/packet.js:131-134 | a slice inside the buffer is the plain subsequence |
| Buffers.WriteUInt16BE | lib/packet.js:97-98 | the buffer afterwards holds the value's two bytes at the offset, and every other byte is unchanged |
| Buffers.WriteUInt32BE | lib/packet.js:99-102 | the buffer afterwards holds the value's four bytes at the offset, and every other byte is unchanged |
| Bits.Bitwise | lib/packet.js:118-119 | a bitwise operation on `n` bits yields a value below 2^n |
| Bits.Xor | lib/packet.js:214-218 | byte-wise XOR has the shorter operand's length, and byte `i` is the XOR of the two bytes `i` |
| Bits.XorByteSelfInverse | lib/packet.js:214-218 | XORing a byte twice with the same key restores it |
| Bits.XorSelfInverse | lib/packet.js:214-218 | XORing a byte sequence twice with a key at least as long restores it |
| Bits.TopBitsClear | lib/packet.js:116-121 | `block & 0x80` and `block & 0x40` are both zero exactly when the byte is below 0x40 |
| Bits.AndMethodMask | lib/packet.js:145 | `x & 0x0110` keeps exactly bits 8 and 4 of `x` |
| Bits.AndClassMask | lib/packet.js:230 | `x & 0x700` keeps exactly bits 8 to 10 of `x` |
| Bits.AndLowByte | lib/packet.js:230 | `x & 0xff` is the low byte of `x`'s 32-bit pattern |
| StunValues.DecodeMappedAddress | lib/packet.js:197-205 | fails exactly when the value is shorter than 4 bytes; the family is 6 iff bytes 0-1 read 0x0002, otherwise 4; the port is bytes 2-3; the address is bytes 4 up to 4 + 4 (IPv4) or 4 + 16 (IPv6), cut short at the end of the value |
| StunValues.MappedAddressRoundTrip | lib/packet.js:197-205 | decoding the encoding of any well-formed address, followed by any padding, gives it back |
| StunValues.MappedAddressExample | lib/packet.js:197-205 | 00 01 1F 90 7F 00 00 01 decodes to family 4, port 8080, address 127.0.0.1 |
| StunValues.DecodeXorMappedAddress | lib/packet.js:208-225 | fails exactly when the value is shorter than 4 bytes or the header shorter than 6; the port is bytes 2-3 XOR header bytes 4-5; the address is value bytes 4.. XOR header bytes 4.., each taken over 4 (IPv4) or 16 (IPv6) bytes and cut short at the end of its buffer |
| StunValues.XorMappedAddressRoundTrip | lib/packet.js:208-225 | decoding an address XOR-encoded against the same header gives back the address |
| StunValues.XorPortRestored | lib/packet.js:218 | the port XOR undoes an XOR-encoded port |
| StunValues.XorAddressRestored | lib/packet.js:213-217 | the address XOR undoes an XOR-encoded address |
| StunValues.XorAddressIgnoresHeaderStart | lib/packet.js:214-218 | the XOR decoder reads no header byte before offset 4 |
| StunValues.XorPortUsesCookie | lib/packet.js:218 | with the magic cookie in the header, the port is the raw port XOR 0x2112 |
| StunValues.DecodeErrorCode | lib/packet.js:228-237 | as written: fails exactly when the value is shorter than 8 bytes; the code is byte 3 alone; the reason is the 32-bit number in bytes 4-7 |
| StunValues.CodeIsNumberByte | lib/packet.js:230 | `(block & 0x700) * 100 + block & 0xff`, parsed as JavaScript parses it, is the block's low byte |
| StunValues.DecodeErrorCodeRfc | lib/packet.js:228-237 | corrected: fails exactly when the value is shorter than 4 bytes; the code is class (bits 8-10) * 100 + number (low byte); the reason is the bytes after the block |
| StunValues.ErrorCodeRfcRoundTrip | lib/packet.js:228-237 | the corrected decoder gives back every class 3-6 / number 0-99 code and reason that was encoded |
| StunValues.DecodedErrorValue | lib/packet.js:228-237 | the corrected decoder's result, spelled out for any value of at least 4 bytes |
| StunValues.ErrorCodeAsWrittenLosesClass | lib/packet.js:230-231 | as written, error 420 decodes as 20, and a value with an empty reason fails; the corrected decoder gives 420 and 400 for the same bytes |
| StunValues.UnknownAttributeCodes | lib/packet.js:247-257 | fails exactly for an odd length; otherwise yields n/2 codes, code `i` being the 16-bit value at offset 2i |
| StunValues.UnknownAttributesRoundTrip | lib/packet.js:247-257 | the codes of the big-endian encoding of any code list are that list |
| StunValues.DecodeUnknownAttributes | lib/packet.js:247-257 | the push loop yields exactly the codes of `UnknownAttributeCodes`: n/2 values in input order, or failure for an odd length |
| StunAttributes.PaddedLength | lib/packet.js:163-166 | the rounded length is a multiple of 4 within `[L, L+4)` |
| StunAttributes.DecodeValue | lib/packet.js:172-189 | the value is transformed exactly for the types the dispatch interprets (1, 0x20 and 0x8022 as written, plus 9 and 0xA intended); a MAPPED-ADDRESS or XOR-MAPPED-ADDRESS value is the result of `DecodeMappedAddress` or `DecodeXorMappedAddress`, an intended ERROR-CODE or UNKNOWN-ATTRIBUTES value that of `DecodeErrorCodeRfc` or `UnknownAttributeCodes`, SOFTWARE the bytes themselves; every other type keeps its raw bytes unchanged; failure happens exactly under the stated length conditions; the result has the variant its type calls for |
| StunAttributes.ReadRecord | lib/packet.js:159-162 | a record header is read exactly when four bytes remain at the offset |
| StunAttributes.Records | lib/packet.js:158-170 | the records of a section start at its offset, each one where the previous ends (offset + 4 + padded length), all inside the section, and the last ends at or past its end; reading fails exactly when, after such a chain, a record header straddles the end of the section (fewer than 4 bytes left, but some) |
| StunAttributes.WalkIsRecordsThenStore | lib/packet.js:154-194 | the walk `Walk`, and so `AttributesOf`, the model of `_decodeAttributes`, is the record list followed by storing each record's decoded value in order |
| StunAttributes.StoreSucceedsIff | lib/packet.js:172-190 | storing fails exactly when some record's value fails to decode |
| StunAttributes.StoreLastWins | lib/packet.js:190 | the keys are the old keys plus the records' types; each type holds the value of its last record; other keys are untouched |
| StunAttributes.WalkPreservesWellTyped | lib/packet.js:172-190 | every stored value has the variant its type calls for |
| StunAttributes.ValueLayout | lib/packet.js:162-170 | as written, the stored value is bytes `offset+4 .. min(offset+4+P, end)`, at most `P` long; intended, it is the declared-length slice |
| StunAttributes.PaddingKeptAsWritten | lib/packet.js:163-170 | a SOFTWARE record of length 1 stores 4 bytes as written, 1 byte intended |
| StunAttributes.ErrorCodeStoredRaw | lib/packet.js:182-186 | an ERROR-CODE record is stored as raw bytes as written, and as error 420 intended |
| StunAttributes.WalkIgnoresHeaderStart | lib/packet.js:177 | the walk's result does not depend on header bytes 0-3 |
| StunAttributes.PropertiesOfDecoded | lib/packet.js:69-76 | the getters `AddressOf`/`Packet.GetAddress` (`_getAddress`) and `SoftwareOf`/`Packet.GetSoftware` (`_getSoftware`): on decoded attributes, `address` is the MAPPED-ADDRESS when present, else the XOR-MAPPED-ADDRESS, and is an address; `software` is SOFTWARE text |
| StunAttributes.FalsyMappedFallsThrough | lib/packet.js:69-71 | `a \|\| b` skips a falsy (empty-string) MAPPED-ADDRESS entry but not an empty buffer |
| StunAttributes.DecodeAttributes | lib/packet.js:154-194 | the loop's result is the walk `AttributesOf`, and every stored value is well typed |
| StunPacket.IsStunPacket | lib/packet.js:116-122 | fails exactly on an empty buffer; otherwise true iff byte 0 is below 0x40, that is iff its two top bits are clear |
| StunPacket.TypeField | lib/packet.js:93-97 | `(method \| class) & 0x3fff` fits in 14 bits |
| StunPacket.MethodOfTypeField | lib/packet.js:145 | the method of a type field is bit 0 of its first byte times 0x100 plus bit 4 of its second byte times 0x10, always a method of the table |
| StunPacket.DecodeHeader | lib/packet.js:143-151 | succeeds exactly for at least 20 bytes; the method is a table value given by type bits 8 and 4; length, cookie and tid are the big-endian fields at 2, 4 and 16 |
| StunPacket.DecodeMessage | lib/packet.js:125-140 | fails exactly for an empty buffer, or a STUN one that is shorter than 20 bytes or whose attribute walk fails; yields `null` exactly when the classifier says false; otherwise the class is BINDING_CLASS, the method comes from the type field, the tid from bytes 16-19, and the attributes from walking everything after byte 20 |
| StunPacket.DecodeStunMessage | lib/packet.js:125-140 | the decoded message of a classified buffer of at least 20 bytes, field by field |
| StunPacket.ShortOrForeign | lib/packet.js:125-134 | a non-STUN buffer decodes to `null`, a STUN one shorter than 20 bytes fails |
| StunPacket.HeaderLayout | lib/packet.js:92-104 | `HeaderBytes`, the model of `_encodeHeader`'s output: the header is 20 bytes: type, length, 21 12 A4 42, eight zero bytes, tid |
| StunPacket.EncodeLayout | lib/packet.js:84-113 | `EncodeMessage`, the model of `encode`'s output: the encoded message is 20 bytes: the type field, a zero length, the cookie, eight zeros, the tid; byte 0 is below 0x40 |
| StunPacket.EncodedIsStun | lib/packet.js:84-122 | the classifier accepts every encoded message |
| StunPacket.EncodeDecode | lib/packet.js:84-151 | decoding an encoded message yields class BINDING_CLASS, the type field under the method mask, no attributes and the same tid |
| StunPacket.BindingTypeField | lib/packet.js:31-42 | for a binding message of a method in the table, the type field is method + 1 and the method mask recovers the method |
| StunPacket.BindingRoundTrip | lib/packet.js:84-151 | a binding message of any table method and any tid decodes to the same method and tid with no attributes |
| StunPacket.BindingEncoding | lib/packet.js:84-113 | a binding message's bytes: method + 1 big-endian, 00 00, 21 12 A4 42, eight zeros, then the tid |
| StunPacket.RequestExample | lib/packet.js:84-113 | a binding request with tid 0x11223344 is 00 01 00 00 21 12 A4 42, eight zeros, 11 22 33 44 |
| StunPacket.LengthFieldIgnored | lib/packet.js:143-151 | replacing header bytes 2-3 does not change what `decode` yields |
| StunPacket.CookieNotChecked | lib/packet.js:143-151 | every 20-byte buffer whose first byte is below 0x40 decodes, whatever its cookie, to a message without attributes |
| StunPacket.Packet.constructor | lib/packet.js:5-9 | class, method and tid are set; a missing attribute map becomes empty |
| StunPacket.Packet.EncodeHeader | lib/packet.js:92-104 | the six writes leave a fresh 20-byte buffer equal to the header layout |
| StunPacket.Packet.EncodeAttributes | lib/packet.js:107-113 | the attribute part is empty |
| StunPacket.Packet.Encode | lib/packet.js:84-89 | the result is the header (with the attribute part's length) followed by the attribute part, that is `EncodeMessage` |
| StunPacket.Packet.Decode | lib/packet.js:125-140 | fails exactly when `DecodeMessage` fails; yields null exactly when it yields nothing; otherwise a fresh packet whose state is the decoded message, the header's tid replacing the drawn one |

## Left out

- `_getTransactionId` (lib/packet.js:79-81) draws a random float below
  2^32. The tid is a `uint32` parameter of the constructor instead.
  The truncation `writeUInt32BE` applies to a fractional tid is not
  modelled.
- `ip.toString` (lib/packet.js:203, 223) renders an address as text; it
  comes from a foreign library. The model keeps the address bytes: the 4
  or 16 bytes after the port, cut short at the end of the value. Any
  failure of the rendering itself (for instance on a cut-short address)
  is not modelled.
- `buffer.toString()` (lib/packet.js:243) decodes SOFTWARE as UTF-8. The
  model keeps the bytes.
- The XOR of the `bitwise-xor` library is modelled as a byte-wise XOR over
  the shorter operand's length, which is the whole operand whenever the
  value holds the address.
- The `ERROR_CODE` reason table (lib/packet.js:59-66) is a constant that
  the codec never reads.
- `new Buffer(20)` hands out uninitialised memory. The model's array starts
  zeroed, and every byte is overwritten.
- `writeUInt16BE` throws for a length of 2^16 or more. `EncodeHeader` takes
  a `uint16` length instead; its only caller passes 0.
- `class` and `method` are modelled as integers. Non-integer JavaScript
  numbers are not modelled.
- Attribute maps are keyed by the 16-bit type. JavaScript turns the type
  into a string key.
- `Packet.Encode` returns the bytes as a sequence, not as a new
  `Buffer` object.
- `lib/client.js`, `lib/index.js`, `examples/client.js` and
  `examples/report.js` do socket I/O, DNS lookups, event routing and
  wiring; they are not part of this model.

## Findings

| source | as written | input that shows it | evidently intended | confidence | as-written member | corrected member |
|---|---|---|---|---|---|---|
| lib/packet.js:230 | `(block & 0x700) * 100 + block & 0xff` parses as `((block & 0x700) * 100 + block) & 0xff`, and the class bits are not shifted down, so the code is the number byte alone | ERROR-CODE value 00 00 04 14 42 61 64 20 (class 4, number 20, a 4-byte reason) gives code 20 | code = class * 100 + number = 420 | high; not executed | StunValues.ErrorCodeAsWrittenLosesClass | StunValues.ErrorCodeRfcRoundTrip |
| lib/packet.js:231 | the reason is read with `readUInt32BE(4)`: a number, not the text, and a RangeError when fewer than 4 reason bytes follow | ERROR-CODE value 00 00 04 00 with an empty reason throws | the reason is the bytes after the 4-byte block | high; not executed | StunValues.ErrorCodeAsWrittenLosesClass | StunValues.DecodedErrorValue |
| lib/packet.js:182-186 | the case labels `Packet.ATTR_ERROR_CODE` and `Packet.UNKNOWN_ATTRIBUTES` are undefined, so ERROR-CODE and UNKNOWN-ATTRIBUTES are never decoded | record 00 09 00 08 00 00 04 14 42 61 64 21 is stored as its raw bytes | ERROR-CODE decoded to error 420, UNKNOWN-ATTRIBUTES to its code list | high; not executed | StunAttributes.ErrorCodeStoredRaw | StunAttributes.DecodeValue |
| lib/packet.js:163-170 | the value is sliced to the padded length, so padding bytes become part of the value | SOFTWARE record 80 22 00 01 61 00 00 00 stores 61 00 00 00 | the value is the declared 1 byte, 61 | medium; not executed | StunAttributes.PaddingKeptAsWritten | StunAttributes.ValueLayout |
