/** The attribute section of a STUN message: a sequence of records, each a
    16-bit type, a 16-bit length and a value padded to a 4-byte boundary,
    decoded into a map from attribute type to value. */
module StunAttributes {
  import opened Buffers
  import opened StunValues

  const MAPPED_ADDRESS: uint16 := 0x0001
  const USERNAME: uint16 := 0x0006
  const MESSAGE_INTEGRITY: uint16 := 0x0008
  const ERROR_CODE: uint16 := 0x0009
  const UNKNOWN_ATTRIBUTES: uint16 := 0x000A
  const REALM: uint16 := 0x0014
  const NONCE: uint16 := 0x0015
  const XOR_MAPPED_ADDRESS: uint16 := 0x0020
  const SOFTWARE: uint16 := 0x8022
  const ALTERNATE_SERVER: uint16 := 0x8023
  const FINGERPRINT: uint16 := 0x8028

  /** A decoded attribute value. SOFTWARE text is kept as its bytes; the
      program renders it with `buffer.toString()`. */
  datatype AttrValue =
    | AddressAttr(address: Address)
    | SoftwareAttr(text: seq<byte>)
    | RawAttr(bytes: seq<byte>)
    | ErrorAttr(error: ErrorValue)
    | UnknownAttr(codes: seq<uint16>)

  type Attributes = map<uint16, AttrValue>

  /** How a record is decoded: `AsWritten` is what `_decodeAttributes`
      does (values sliced to the padded length; the ERROR-CODE and
      UNKNOWN-ATTRIBUTES cases never match, because their case labels name
      properties that do not exist); `Intended` is the RFC 5389 reading
      (values sliced to the declared length; both types decoded). */
  datatype Dispatch = AsWritten | Intended

  /** The declared length rounded up to the next multiple of 4. */
  function PaddedLength(length: uint16): (p: nat)
    ensures p % 4 == 0
    ensures length <= p < length + 4
  {
    var blockOut := length % 4;
    if blockOut > 0 then length + (4 - blockOut) else length
  }

  /** Number of bytes taken as the value of a record. */
  function ValueLength(d: Dispatch, length: uint16): nat {
    if d == AsWritten then PaddedLength(length) else length
  }

  /** The types whose values are interpreted rather than stored as bytes. */
  predicate Interpreted(d: Dispatch, kind: uint16) {
    kind == MAPPED_ADDRESS || kind == XOR_MAPPED_ADDRESS || kind == SOFTWARE
    || (d == Intended && (kind == ERROR_CODE || kind == UNKNOWN_ATTRIBUTES))
  }

  /** The variant a value of type `kind` takes once decoded. */
  predicate Conforms(d: Dispatch, kind: uint16, v: AttrValue) {
    if kind == MAPPED_ADDRESS || kind == XOR_MAPPED_ADDRESS then v.AddressAttr?
    else if kind == SOFTWARE then v.SoftwareAttr?
    else if d == Intended && kind == ERROR_CODE then v.ErrorAttr?
    else if d == Intended && kind == UNKNOWN_ATTRIBUTES then v.UnknownAttr?
    else v.RawAttr?
  }

  predicate WellTyped(d: Dispatch, attrs: Attributes) {
    forall k | k in attrs :: Conforms(d, k, attrs[k])
  }

  /** The `switch (type)` of `_decodeAttributes`: the per-type decoder, or
      the raw bytes for every other type. */
  function DecodeValue(d: Dispatch, header: seq<byte>, kind: uint16, raw: seq<byte>): (r: Result<AttrValue>)
    ensures r.Ok? ==> Conforms(d, kind, r.value)
    ensures (r.Ok? && r.value.RawAttr?) <==> !Interpreted(d, kind)
    ensures r.Ok? && r.value.RawAttr? ==> r.value.bytes == raw
    ensures r.Ok? && r.value.SoftwareAttr? ==> r.value.text == raw
    ensures r.Ok? && kind == MAPPED_ADDRESS ==> DecodeMappedAddress(raw) == Ok(r.value.address)
    ensures r.Ok? && kind == XOR_MAPPED_ADDRESS ==> DecodeXorMappedAddress(header, raw) == Ok(r.value.address)
    ensures r.Ok? && d == Intended && kind == ERROR_CODE ==> DecodeErrorCodeRfc(raw) == Ok(r.value.error)
    ensures r.Ok? && d == Intended && kind == UNKNOWN_ATTRIBUTES ==> UnknownAttributeCodes(raw) == Ok(r.value.codes)
    ensures r.OutOfRange? <==>
              ((kind == MAPPED_ADDRESS || kind == XOR_MAPPED_ADDRESS) && |raw| < 4)
              || (kind == XOR_MAPPED_ADDRESS && |header| < 6)
              || (d == Intended && kind == ERROR_CODE && |raw| < 4)
              || (d == Intended && kind == UNKNOWN_ATTRIBUTES && |raw| % 2 == 1)
  {
    if kind == MAPPED_ADDRESS then
      var a :- DecodeMappedAddress(raw);
      Ok(AddressAttr(a))
    else if kind == XOR_MAPPED_ADDRESS then
      var a :- DecodeXorMappedAddress(header, raw);
      Ok(AddressAttr(a))
    else if kind == SOFTWARE then
      Ok(SoftwareAttr(raw))
    else if d == Intended && kind == ERROR_CODE then
      var e :- DecodeErrorCodeRfc(raw);
      Ok(ErrorAttr(e))
    else if d == Intended && kind == UNKNOWN_ATTRIBUTES then
      var codes :- UnknownAttributeCodes(raw);
      Ok(UnknownAttr(codes))
    else
      Ok(RawAttr(raw))
  }

  /** One record of the section: where it starts and its two header words. */
  datatype Record = Record(offset: nat, kind: uint16, length: uint16)

  function NextOffset(r: Record): nat {
    r.offset + 4 + PaddedLength(r.length)
  }

  predicate RecordAt(section: seq<byte>, r: Record) {
    ReadUInt16BE(section, r.offset) == Ok(r.kind) && ReadUInt16BE(section, r.offset + 2) == Ok(r.length)
  }

  /** The bytes stored for record `r`. */
  function ValueOf(d: Dispatch, section: seq<byte>, r: Record): seq<byte> {
    Slice(section, r.offset + 4, r.offset + 4 + ValueLength(d, r.length))
  }

  /** Each record starts where the previous one ends. */
  predicate Chained(rs: seq<Record>) {
    forall i, j | 0 <= i && j == i + 1 < |rs| :: rs[j].offset == NextOffset(rs[i])
  }

  /** The two header words of the record at `offset`, which throw when
      they run past the end of the section. */
  function ReadRecord(section: seq<byte>, offset: nat): (r: Result<Record>)
    ensures r.Ok? <==> offset + 4 <= |section|
    ensures r.Ok? ==> r.value.offset == offset && RecordAt(section, r.value)
  {
    var kind :- ReadUInt16BE(section, offset);
    var length :- ReadUInt16BE(section, offset + 2);
    Ok(Record(offset, kind, length))
  }

  /** The walk of `_decodeAttributes` from `offset` with the map built so
      far: read a record, slice and decode its value, store it under its
      type and go on past the padded value; a read past the end throws. */
  function Walk(d: Dispatch, header: seq<byte>, section: seq<byte>, offset: nat, attrs: Attributes): Result<Attributes>
    decreases |section| - offset
  {
    if offset >= |section| then Ok(attrs)
    else
      var rec :- ReadRecord(section, offset);
      var value :- DecodeValue(d, header, rec.kind, ValueOf(d, section, rec));
      Walk(d, header, section, NextOffset(rec), attrs[rec.kind := value])
  }

  /** What `_decodeAttributes(header, section)` returns. */
  function AttributesOf(header: seq<byte>, section: seq<byte>): Result<Attributes> {
    Walk(AsWritten, header, section, 0, map[])
  }

  /** The attribute map RFC 5389 calls for. */
  function AttributesIntended(header: seq<byte>, section: seq<byte>): Result<Attributes> {
    Walk(Intended, header, section, 0, map[])
  }

  /** Where the records starting at `offset` end. */
  function EndOf(offset: nat, rs: seq<Record>): nat {
    if rs == [] then offset else NextOffset(rs[|rs| - 1])
  }

  /** `rs` are records read one after the other from `offset`, each
      starting inside the section. */
  predicate ChainFrom(section: seq<byte>, offset: nat, rs: seq<Record>) {
    && (forall i | 0 <= i < |rs| :: RecordAt(section, rs[i]) && offset <= rs[i].offset < |section|)
    && (rs != [] ==> rs[0].offset == offset)
    && Chained(rs)
  }

  /** After the chain `rs` fewer than four bytes are left, but some are:
      the next record header runs past the end of the section. */
  predicate Straddles(section: seq<byte>, offset: nat, rs: seq<Record>) {
    ChainFrom(section, offset, rs) && EndOf(offset, rs) < |section| < EndOf(offset, rs) + 4
  }

  /** The records of the section from `offset` on, each read where the
      previous one ends, until the section is exhausted. The reads throw
      exactly when some record header straddles the end of the section. */
  function Records(section: seq<byte>, offset: nat): (r: Result<seq<Record>>)
    ensures r.Ok? ==> forall i | 0 <= i < |r.value| ::
                        RecordAt(section, r.value[i]) && offset <= r.value[i].offset < |section|
    ensures r.Ok? && r.value != [] ==> r.value[0].offset == offset
    ensures r.Ok? ==> Chained(r.value)
    ensures r.Ok? ==> EndOf(offset, r.value) >= |section|
    ensures r.OutOfRange? <==> exists rs :: Straddles(section, offset, rs)
    decreases |section| - offset
  {
    if offset >= |section| then
      NoChainPastEnd(section, offset);
      Ok([])
    else
      var rec :- (StraddlesAtOnce(section, offset); ReadRecord(section, offset));
      StraddlesAfter(section, rec);
      var rest :- Records(section, NextOffset(rec));
      Ok([rec] + rest)
  }

  /** No chain can start at or past the end of the section. */
  lemma NoChainPastEnd(section: seq<byte>, offset: nat)
    requires offset >= |section|
    ensures forall rs :: !Straddles(section, offset, rs)
  {
  }

  /** A header that does not fit is the empty chain straddling the end. */
  lemma StraddlesAtOnce(section: seq<byte>, offset: nat)
    requires offset < |section|
    ensures offset + 4 > |section| ==> Straddles(section, offset, [])
  {
  }

  /** Once the record at `rec.offset` is read, the chains from there that
      straddle the end are that record followed by the straddling chains
      from the next offset. */
  lemma StraddlesAfter(section: seq<byte>, rec: Record)
    requires rec.offset < |section| && ReadRecord(section, rec.offset) == Ok(rec)
    ensures (exists rs :: Straddles(section, rec.offset, rs))
        <==> (exists rs :: Straddles(section, NextOffset(rec), rs))
  {
    var next := NextOffset(rec);
    if rs: seq<Record> :| Straddles(section, rec.offset, rs) {
      assert rs != [];
      assert rs[0] == rec;
      var tail := rs[1..];
      forall i | 0 <= i < |tail| ensures RecordAt(section, tail[i]) && next <= tail[i].offset < |section| {
        assert tail[i] == rs[i + 1];
        assert rs[1].offset == next;
        ChainedMonotone(rs, 1, i + 1);
      }
      if tail != [] {
        assert tail[0].offset == next;
      }
      forall i, j | 0 <= i && j == i + 1 < |tail| ensures tail[j].offset == NextOffset(tail[i]) {
        assert tail[i] == rs[i + 1] && tail[j] == rs[j + 1];
      }
      assert EndOf(next, tail) == EndOf(rec.offset, rs);
      assert Straddles(section, next, tail);
    }
    if rs: seq<Record> :| Straddles(section, next, rs) {
      var full := [rec] + rs;
      forall i | 0 <= i < |full| ensures RecordAt(section, full[i]) && rec.offset <= full[i].offset < |section| {
        if i > 0 {
          assert full[i] == rs[i - 1];
        }
      }
      forall i, j | 0 <= i && j == i + 1 < |full| ensures full[j].offset == NextOffset(full[i]) {
        if i > 0 {
          assert full[i] == rs[i - 1] && full[j] == rs[j - 1];
        }
      }
      assert EndOf(rec.offset, full) == EndOf(next, rs);
      assert Straddles(section, rec.offset, full);
    }
  }

  /** Offsets grow along a chain. */
  lemma {:induction false} ChainedMonotone(rs: seq<Record>, i: nat, j: nat)
    requires Chained(rs) && i <= j < |rs|
    ensures rs[i].offset <= rs[j].offset
    decreases j - i
  {
    if i < j {
      ChainedMonotone(rs, i + 1, j);
      assert rs[i + 1].offset == NextOffset(rs[i]);
    }
  }

  /** Each record's value is decoded and stored under its type, in order. */
  function Store(d: Dispatch, header: seq<byte>, section: seq<byte>, rs: seq<Record>, attrs: Attributes): Result<Attributes>
  {
    if rs == [] then Ok(attrs)
    else
      var value :- DecodeValue(d, header, rs[0].kind, ValueOf(d, section, rs[0]));
      Store(d, header, section, rs[1..], attrs[rs[0].kind := value])
  }

  /** The walk is the records of the section stored one after the other. */
  lemma {:induction false} WalkIsRecordsThenStore(d: Dispatch, header: seq<byte>, section: seq<byte>, offset: nat, attrs: Attributes)
    ensures Walk(d, header, section, offset, attrs)
         == match Records(section, offset)
            case OutOfRange => OutOfRange
            case Ok(rs) => Store(d, header, section, rs, attrs)
    decreases |section| - offset
  {
    if offset < |section| {
      var rec := ReadRecord(section, offset);
      if rec.Ok? {
        var r := rec.value;
        var value := DecodeValue(d, header, r.kind, ValueOf(d, section, r));
        var records := Records(section, NextOffset(r));
        if value.Ok? {
          WalkIsRecordsThenStore(d, header, section, NextOffset(r), attrs[r.kind := value.value]);
        }
        if records.Ok? {
          var rs := [r] + records.value;
          assert rs[0] == r && rs[1..] == records.value;
        }
      }
    }
  }

  /** No record of `rs` after position `i` has the type of record `i`. */
  predicate LastOfKind(rs: seq<Record>, i: nat)
    requires i < |rs|
  {
    forall j | i < j < |rs| :: rs[j].kind != rs[i].kind
  }

  function KindsOf(rs: seq<Record>): set<uint16> {
    set i | 0 <= i < |rs| :: rs[i].kind
  }

  /** Storing fails exactly when some record's value fails to decode. */
  lemma {:induction false} StoreSucceedsIff(d: Dispatch, header: seq<byte>, section: seq<byte>, rs: seq<Record>, attrs: Attributes)
    ensures Store(d, header, section, rs, attrs).Ok?
        <==> forall i | 0 <= i < |rs| :: DecodeValue(d, header, rs[i].kind, ValueOf(d, section, rs[i])).Ok?
  {
    if rs != [] {
      var value := DecodeValue(d, header, rs[0].kind, ValueOf(d, section, rs[0]));
      if value.Ok? {
        StoreSucceedsIff(d, header, section, rs[1..], attrs[rs[0].kind := value.value]);
        assert forall i | 1 <= i < |rs| :: rs[i] == rs[1..][i - 1];
      }
    }
  }

  /** A later record of the same type overwrites an earlier one: each type
      maps to the value of its last record, and the types not in the
      section keep their previous values. */
  lemma {:induction false} StoreLastWins(d: Dispatch, header: seq<byte>, section: seq<byte>, rs: seq<Record>, attrs: Attributes)
    requires Store(d, header, section, rs, attrs).Ok?
    ensures forall i | 0 <= i < |rs| :: DecodeValue(d, header, rs[i].kind, ValueOf(d, section, rs[i])).Ok?
    ensures Store(d, header, section, rs, attrs).value.Keys == attrs.Keys + KindsOf(rs)
    ensures forall i | 0 <= i < |rs| && LastOfKind(rs, i) ::
              Store(d, header, section, rs, attrs).value[rs[i].kind]
              == DecodeValue(d, header, rs[i].kind, ValueOf(d, section, rs[i])).value
    ensures forall k | k in attrs && k !in KindsOf(rs) :: Store(d, header, section, rs, attrs).value[k] == attrs[k]
  {
    if rs != [] {
      var k0 := rs[0].kind;
      var v0 := DecodeValue(d, header, k0, ValueOf(d, section, rs[0])).value;
      var attrs' := attrs[k0 := v0];
      var tail := rs[1..];
      StoreSucceedsIff(d, header, section, rs, attrs);
      StoreLastWins(d, header, section, tail, attrs');
      var result := Store(d, header, section, rs, attrs).value;
      assert result == Store(d, header, section, tail, attrs').value;
      KindsOfCons(rs);
      forall i | 0 <= i < |rs| && LastOfKind(rs, i)
        ensures result[rs[i].kind] == DecodeValue(d, header, rs[i].kind, ValueOf(d, section, rs[i])).value
      {
        if i == 0 {
          LastOfKindHead(rs);
        } else {
          LastOfKindTail(rs, i);
        }
      }
    }
  }

  lemma KindsOfCons(rs: seq<Record>)
    requires rs != []
    ensures KindsOf(rs) == {rs[0].kind} + KindsOf(rs[1..])
  {
    var tail := rs[1..];
    forall k | k in KindsOf(rs) ensures k in {rs[0].kind} + KindsOf(tail) {
      var i :| 0 <= i < |rs| && rs[i].kind == k;
      if i > 0 {
        assert tail[i - 1].kind == k;
      }
    }
    forall k | k in KindsOf(tail) ensures k in KindsOf(rs) {
      var i :| 0 <= i < |tail| && tail[i].kind == k;
      assert rs[i + 1].kind == k;
    }
  }

  lemma LastOfKindHead(rs: seq<Record>)
    requires rs != [] && LastOfKind(rs, 0)
    ensures rs[0].kind !in KindsOf(rs[1..])
  {
    var tail := rs[1..];
    forall j | 0 <= j < |tail| ensures tail[j].kind != rs[0].kind {
      assert tail[j] == rs[j + 1];
    }
  }

  lemma LastOfKindTail(rs: seq<Record>, i: nat)
    requires 0 < i < |rs| && LastOfKind(rs, i)
    ensures rs[1..][i - 1] == rs[i] && LastOfKind(rs[1..], i - 1)
  {
    var tail := rs[1..];
    forall j | i - 1 < j < |tail| ensures tail[j].kind != tail[i - 1].kind {
      assert tail[j] == rs[j + 1];
    }
  }

  /** Every stored value has the variant its type calls for. */
  lemma {:induction false} WalkPreservesWellTyped(d: Dispatch, header: seq<byte>, section: seq<byte>, offset: nat, attrs: Attributes)
    requires WellTyped(d, attrs)
    ensures Walk(d, header, section, offset, attrs).Ok? ==> WellTyped(d, Walk(d, header, section, offset, attrs).value)
    decreases |section| - offset
  {
    if offset < |section| {
      var rec := ReadRecord(section, offset);
      if rec.Ok? {
        var r := rec.value;
        var value := DecodeValue(d, header, r.kind, ValueOf(d, section, r));
        if value.Ok? {
          WalkPreservesWellTyped(d, header, section, NextOffset(r), attrs[r.kind := value.value]);
        }
      }
    }
  }

  /** The stored bytes of a record are the section from just after its
      header up to the end of its (padded or declared) value, cut short at
      the end of the section. */
  lemma ValueLayout(d: Dispatch, section: seq<byte>, r: Record)
    requires r.offset + 4 <= |section|
    ensures ValueOf(d, section, r)
         == section[r.offset + 4 .. Min(r.offset + 4 + ValueLength(d, r.length), |section|)]
    ensures |ValueOf(AsWritten, section, r)| <= PaddedLength(r.length)
    ensures r.offset + 4 + r.length <= |section| ==> ValueOf(Intended, section, r) == section[r.offset + 4 .. r.offset + 4 + r.length]
  {
  }

  /** As written, a SOFTWARE value of declared length 1 is stored with its
      three padding bytes; as intended, without them. */
  lemma PaddingKeptAsWritten(header: seq<byte>)
    ensures AttributesOf(header, [0x80, 0x22, 0x00, 0x01, 0x61, 0x00, 0x00, 0x00])
         == Ok(map[SOFTWARE := SoftwareAttr([0x61, 0x00, 0x00, 0x00])])
    ensures AttributesIntended(header, [0x80, 0x22, 0x00, 0x01, 0x61, 0x00, 0x00, 0x00])
         == Ok(map[SOFTWARE := SoftwareAttr([0x61])])
  {
    var section: seq<byte> := [0x80, 0x22, 0x00, 0x01, 0x61, 0x00, 0x00, 0x00];
    var rec := Record(0, SOFTWARE, 1);
    assert ReadRecord(section, 0) == Ok(rec);
    assert ValueOf(AsWritten, section, rec) == [0x61, 0x00, 0x00, 0x00];
    assert ValueOf(Intended, section, rec) == [0x61];
    assert NextOffset(rec) == 8;
  }

  /** As written, an ERROR-CODE attribute (error 420, reason "Bad!") is
      stored as raw bytes; as intended, it is decoded. */
  lemma ErrorCodeStoredRaw(header: seq<byte>)
    ensures AttributesOf(header, [0x00, 0x09, 0x00, 0x08, 0x00, 0x00, 0x04, 0x14, 0x42, 0x61, 0x64, 0x21])
         == Ok(map[ERROR_CODE := RawAttr([0x00, 0x00, 0x04, 0x14, 0x42, 0x61, 0x64, 0x21])])
    ensures AttributesIntended(header, [0x00, 0x09, 0x00, 0x08, 0x00, 0x00, 0x04, 0x14, 0x42, 0x61, 0x64, 0x21])
         == Ok(map[ERROR_CODE := ErrorAttr(ErrorValue(420, [0x42, 0x61, 0x64, 0x21]))])
  {
    var section: seq<byte> := [0x00, 0x09, 0x00, 0x08, 0x00, 0x00, 0x04, 0x14, 0x42, 0x61, 0x64, 0x21];
    var rec := Record(0, ERROR_CODE, 8);
    assert ReadRecord(section, 0) == Ok(rec);
    var value := section[4..];
    assert ValueOf(AsWritten, section, rec) == value;
    assert ValueOf(Intended, section, rec) == value;
    assert value == ErrorCodeBytes(4, 20, [0x42, 0x61, 0x64, 0x21]);
    assert DecodeValue(AsWritten, header, ERROR_CODE, value) == Ok(RawAttr(value));
    WalkStores(AsWritten, header, section, 0, map[], rec, RawAttr(value));
    ErrorCodeRfcRoundTrip(4, 20, [0x42, 0x61, 0x64, 0x21]);
    var e := ErrorAttr(ErrorValue(420, [0x42, 0x61, 0x64, 0x21]));
    assert DecodeValue(Intended, header, ERROR_CODE, value) == Ok(e);
    WalkStores(Intended, header, section, 0, map[], rec, e);
    assert NextOffset(rec) == 12;
  }

  /** Header bytes before offset 4 (the type and length fields) do not
      affect the decoded attributes: only the XOR key is read from the
      header. */
  lemma {:induction false} WalkIgnoresHeaderStart(d: Dispatch, header: seq<byte>, header': seq<byte>, section: seq<byte>, offset: nat, attrs: Attributes)
    requires |header| == |header'| >= 4 && header[4..] == header'[4..]
    ensures Walk(d, header, section, offset, attrs) == Walk(d, header', section, offset, attrs)
    decreases |section| - offset
  {
    if offset < |section| {
      var rec := ReadRecord(section, offset);
      if rec.Ok? {
        var r := rec.value;
        var raw := ValueOf(d, section, r);
        XorAddressIgnoresHeaderStart(header, header', raw);
        assert DecodeValue(d, header, r.kind, raw) == DecodeValue(d, header', r.kind, raw);
        var value := DecodeValue(d, header, r.kind, raw);
        if value.Ok? {
          WalkIgnoresHeaderStart(d, header, header', section, NextOffset(r), attrs[r.kind := value.value]);
        }
      }
    }
  }

  /** The `address` property: the MAPPED-ADDRESS value when it is truthy,
      otherwise the XOR-MAPPED-ADDRESS value (or nothing). */
  function AddressOf(attrs: Attributes): Option<AttrValue> {
    if MAPPED_ADDRESS in attrs && Truthy(attrs[MAPPED_ADDRESS]) then Some(attrs[MAPPED_ADDRESS])
    else if XOR_MAPPED_ADDRESS in attrs then Some(attrs[XOR_MAPPED_ADDRESS])
    else None
  }

  /** The `software` property. */
  function SoftwareOf(attrs: Attributes): Option<AttrValue> {
    if SOFTWARE in attrs then Some(attrs[SOFTWARE]) else None
  }

  /** JavaScript truthiness of a stored value: every object is truthy, and
      a string is truthy unless it is empty. */
  predicate Truthy(v: AttrValue) {
    !(v.SoftwareAttr? && v.text == [])
  }

  /** On decoded attributes, `address` is the MAPPED-ADDRESS when there is
      one and the XOR-MAPPED-ADDRESS otherwise, and is an address either
      way; `software` is the SOFTWARE text. */
  lemma PropertiesOfDecoded(d: Dispatch, attrs: Attributes)
    requires WellTyped(d, attrs)
    ensures AddressOf(attrs) == if MAPPED_ADDRESS in attrs then Some(attrs[MAPPED_ADDRESS])
                                else if XOR_MAPPED_ADDRESS in attrs then Some(attrs[XOR_MAPPED_ADDRESS])
                                else None
    ensures AddressOf(attrs).Some? ==> AddressOf(attrs).value.AddressAttr?
    ensures SoftwareOf(attrs).Some? ==> SoftwareOf(attrs).value.SoftwareAttr?
  {
    if MAPPED_ADDRESS in attrs {
      assert Conforms(d, MAPPED_ADDRESS, attrs[MAPPED_ADDRESS]);
    }
    if XOR_MAPPED_ADDRESS in attrs {
      assert Conforms(d, XOR_MAPPED_ADDRESS, attrs[XOR_MAPPED_ADDRESS]);
    }
    if SOFTWARE in attrs {
      assert Conforms(d, SOFTWARE, attrs[SOFTWARE]);
    }
  }

  /** `a || b` falls through a falsy MAPPED-ADDRESS: an empty SOFTWARE
      string stored under type 1 by a caller yields the XOR address. */
  lemma FalsyMappedFallsThrough(x: AttrValue)
    ensures AddressOf(map[MAPPED_ADDRESS := SoftwareAttr([]), XOR_MAPPED_ADDRESS := x]) == Some(x)
    ensures AddressOf(map[MAPPED_ADDRESS := RawAttr([]), XOR_MAPPED_ADDRESS := x]) == Some(RawAttr([]))
  {
  }

  /** One turn of the walk that stores a value. */
  lemma WalkStores(d: Dispatch, header: seq<byte>, section: seq<byte>, offset: nat, attrs: Attributes, rec: Record, value: AttrValue)
    requires offset < |section| && ReadRecord(section, offset) == Ok(rec)
    requires DecodeValue(d, header, rec.kind, ValueOf(d, section, rec)) == Ok(value)
    ensures Walk(d, header, section, offset, attrs) == Walk(d, header, section, NextOffset(rec), attrs[rec.kind := value])
  {
  }

  /** One turn of the walk that throws. */
  lemma WalkThrows(d: Dispatch, header: seq<byte>, section: seq<byte>, offset: nat, attrs: Attributes)
    requires offset < |section|
    requires ReadRecord(section, offset).OutOfRange?
          || DecodeValue(d, header, ReadRecord(section, offset).value.kind,
                         ValueOf(d, section, ReadRecord(section, offset).value)).OutOfRange?
    ensures Walk(d, header, section, offset, attrs) == OutOfRange
  {
  }

  /** `_decodeAttributes`: the loop over the records of the section,
      filling the map in place; the type switch is `DecodeValue`. */
  method DecodeAttributes(header: seq<byte>, section: seq<byte>) returns (r: Result<Attributes>)
    ensures r == AttributesOf(header, section)
    ensures r.Ok? ==> WellTyped(AsWritten, r.value)
  {
    var attrs: Attributes := map[];
    var offset: nat := 0;
    while offset < |section|
      invariant Walk(AsWritten, header, section, offset, attrs) == AttributesOf(header, section)
      decreases |section| - offset
    {
      ghost var start := offset;
      var kind := ReadUInt16BE(section, offset);
      if kind.OutOfRange? {
        WalkThrows(AsWritten, header, section, start, attrs);
        return OutOfRange;
      }
      offset := offset + 2;
      var declared := ReadUInt16BE(section, offset);
      if declared.OutOfRange? {
        WalkThrows(AsWritten, header, section, start, attrs);
        return OutOfRange;
      }
      ghost var rec := Record(start, kind.value, declared.value);
      assert ReadRecord(section, start) == Ok(rec);
      var length: nat := declared.value;
      var blockOut := length % 4;
      if blockOut > 0 {
        length := length + (4 - blockOut);
      }
      assert length == PaddedLength(declared.value);
      offset := offset + 2;
      var raw := Slice(section, offset, offset + length);
      offset := offset + length;
      assert raw == ValueOf(AsWritten, section, rec) && offset == NextOffset(rec);
      var value := DecodeValue(AsWritten, header, kind.value, raw);
      if value.OutOfRange? {
        WalkThrows(AsWritten, header, section, start, attrs);
        return OutOfRange;
      }
      WalkStores(AsWritten, header, section, start, attrs, rec, value.value);
      attrs := attrs[kind.value := value.value];
    }
    WalkPreservesWellTyped(AsWritten, header, section, 0, map[]);
    return Ok(attrs);
  }
}
