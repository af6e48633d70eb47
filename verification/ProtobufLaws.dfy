/** Encoding and decoding undo each other up to the normal form of an event, and whatever decodes is in
    normal form (include/cloudevents/format/protobuf_format.hpp). */
module ProtobufLaws {
  import opened Wrappers
  import opened Arithmetic
  import opened Wire
  import opened Attributes
  import opened JsonDom
  import opened ProtobufDecode
  import opened ProtobufEncode
  import opened Timestamp
  import Order
  import Utf8
  import WireReader

  // Walking over one field that was written

  lemma WalkPut<S>(visit: (S, Field) -> Result<S>, state: S, number: fieldNumber, body: bytes, rest: bytes)
    requires |body| < WORD
    ensures Walk(visit, state, PutField(number, body) + rest)
            == match visit(state, LengthField(number, body)) { case Err(e) => Err(e) case Ok(next) => Walk(visit, next, rest) }
  {
    hide Walk, PutField, ReadField;
    FieldOfPut(number, body, rest);
    WireReader.WalkUnfolds(visit, state, PutField(number, body) + rest);
    FieldNotEmpty(number, body);
  }

  lemma FieldNotEmpty(number: fieldNumber, body: bytes)
    ensures |PutField(number, body)| > |body|
  {
  }

  lemma WalkPutVarint<S>(visit: (S, Field) -> Result<S>, state: S, number: fieldNumber, value: uint64, rest: bytes)
    ensures Walk(visit, state, PutVarintField(number, value) + rest)
            == match visit(state, VarintField(number, value)) { case Err(e) => Err(e) case Ok(next) => Walk(visit, next, rest) }
  {
    hide Walk, ReadField;
    FieldOfPutVarint(number, value, rest);
    WireReader.WalkUnfolds(visit, state, PutVarintField(number, value) + rest);
  }

  lemma WalkEnd<S>(visit: (S, Field) -> Result<S>, state: S)
    ensures Walk(visit, state, []) == Ok(state)
  {
    WireReader.WalkUnfolds(visit, state, []);
  }

  lemma WalkLast<S>(visit: (S, Field) -> Result<S>, state: S, number: fieldNumber, body: bytes)
    requires |body| < WORD
    ensures Walk(visit, state, PutField(number, body)) == visit(state, LengthField(number, body))
  {
    hide Walk, PutField;
    WalkPut(visit, state, number, body, []);
    assert PutField(number, body) + [] == PutField(number, body);
    forall next {
      WalkEnd(visit, next);
    }
  }

  lemma WalkLastVarint<S>(visit: (S, Field) -> Result<S>, state: S, number: fieldNumber, value: uint64)
    ensures Walk(visit, state, PutVarintField(number, value)) == visit(state, VarintField(number, value))
  {
    hide Walk, PutVarintField;
    WalkPutVarint(visit, state, number, value, []);
    assert PutVarintField(number, value) + [] == PutVarintField(number, value);
    forall next {
      WalkEnd(visit, next);
    }
  }

  // Values

  predicate EncodableInstant(t: Timestamp) {
    -REPRESENTABLE <= t.utc / NANOS <= REPRESENTABLE
  }

  /** What the format can carry: well-formed texts, and instants the timestamp type can be given. */
  ghost predicate EncodableValue(v: AttributeValue) {
    match v
    case Text(text) => Utf8.WellFormed(text)
    case Uri(text) => Utf8.WellFormed(text)
    case UriRef(text) => Utf8.WellFormed(text)
    case Instant(t) => EncodableInstant(t)
    case _ => true
  }

  /** The wire carries an instant alone: the offset is lost and the digits are counted anew. */
  function NormalInstant(t: Timestamp): Timestamp {
    Timestamp(t.utc, 0, UtcDesignator, DigitsHolding(t.utc % NANOS))
  }

  function NormalValue(v: AttributeValue): AttributeValue {
    if v.Instant? then Instant(NormalInstant(v.time)) else v
  }

  lemma SignedOfUnsigned(i: int)
    requires -0x8000_0000_0000_0000 <= i < 0x8000_0000_0000_0000
    ensures Signed(ToUnsigned(i)) == i
  {
    if i < 0 {
      Euclid(i, -1, i + WORD, WORD);
    } else {
      Euclid(i, 0, i, WORD);
    }
  }

  /** An integer is read from its sign-extended varint and from no other. */
  lemma IntegerReadExactly(v: uint64, i: int32)
    ensures ReadInteger(v) == Ok(Integer(i)) <==> v == ToUnsigned(i)
  {
    hide Signed, ToUnsigned;
    SignedOfUnsigned(i);
    UnsignedOfSigned(v);
  }

  lemma UnsignedOfSigned(v: uint64)
    ensures ToUnsigned(Signed(v)) == v
  {
    var wide: int := v;
    if wide < 0x8000_0000_0000_0000 {
      Euclid(wide, 0, wide, WORD);
    } else {
      Euclid(wide - WORD, -1, wide, WORD);
    }
  }

  /** An instant made of seconds and nanoseconds has them as its floor and its remainder, below the epoch
      too, and shows no group of three digits more than its last non-zero one. */
  lemma InstantReadExactly(seconds: int, nanos: int)
    ensures MakeInstant(seconds, nanos).Ok? <==> 0 <= nanos < NANOS && -REPRESENTABLE <= seconds <= REPRESENTABLE
    ensures MakeInstant(seconds, nanos).Ok? ==>
              var t := MakeInstant(seconds, nanos).value;
              && t.utc / NANOS == seconds && t.utc % NANOS == nanos && t.offset == 0 && t.form == UtcDesignator
              && t.digits in {0, 3, 6, 9} && nanos % PlacesBelow(t.digits) == 0
              && forall d :: d in {0, 3, 6, 9} && d < t.digits ==> nanos % PlacesBelow(d) != 0
  {
    if 0 <= nanos < NANOS {
      Euclid(seconds * NANOS + nanos, seconds, nanos, NANOS);
    }
  }

  /** One more than the greatest number of nanoseconds that needs more digits than these. */
  function PlacesBelow(digits: digitCount): nat {
    if digits == 0 then NANOS else if digits == 3 then 1_000_000 else if digits == 6 then 1000 else 1
  }

  lemma ReadInstantBody(t: Timestamp)
    ensures ReadTimestamp(InstantBody(t)) == MakeInstant(t.utc / NANOS, t.utc % NANOS)
  {
    hide Walk, PutVarintField, Signed, ToUnsigned;
    var seconds, nanos := t.utc / NANOS, t.utc % NANOS;
    SecondsFit(t.utc);
    SignedOfUnsigned(seconds);
    SignedOfUnsigned(nanos);
    var start := RawInstant(0, 0);
    var tail := if nanos != 0 then PutVarintField(2, ToUnsigned(nanos)) else [];
    if seconds != 0 {
      WalkPutVarint(VisitTimestamp, start, 1, ToUnsigned(seconds), tail);
    } else {
      assert [] + tail == tail;
    }
    if nanos != 0 {
      WalkLastVarint(VisitTimestamp, RawInstant(seconds, 0), 2, ToUnsigned(nanos));
    } else {
      WalkEnd(VisitTimestamp, RawInstant(seconds, 0));
    }
  }

  lemma SecondsFit(utc: ticks)
    ensures -0x8000_0000_0000_0000 <= utc / NANOS < 0x8000_0000_0000_0000
  {
  }

  /** The writer floors the instant to seconds and takes them back to nanoseconds, which stay on the 64-bit
      clock exactly from 1677-09-21T00:12:44Z on. */
  lemma FloorFitsExactly(t: Timestamp)
    ensures FitsInt64(t.utc / NANOS * NANOS) <==> t.utc >= -9_223_372_036 * NANOS
    ensures EncodableInstant(t) ==> FitsInt64(t.utc / NANOS * NANOS)
  {
  }

  /** A value reads back as its normal form exactly when it is encodable. */
  lemma ReadEncodedValue(v: AttributeValue)
    requires |EncodeValue(v)| < WORD
    ensures EncodableValue(v) ==> ReadValue(EncodeValue(v)) == Ok(Some(NormalValue(v)))
    ensures !EncodableValue(v) ==> ReadValue(EncodeValue(v)).Err?
  {
    hide Walk, PutField, PutVarintField, Signed, ToUnsigned, InstantBody, Utf8.Accepts, Utf8.WellFormed, ReadTimestamp;
    match v {
      case Bool(b) => WalkLastVarint(VisitValue, None, 1, if b then 1 else 0);
      case Integer(i) =>
        SignedOfUnsigned(i);
        WalkLastVarint(VisitValue, None, 2, ToUnsigned(i));
      case Text(text) => LastArm(3, text);
      case Binary(octets) => LastArm(4, octets);
      case Uri(text) => LastArm(5, text);
      case UriRef(text) => LastArm(6, text);
      case Instant(t) =>
        LastArm(7, InstantBody(t));
        ReadInstantBody(t);
        assert t.utc == t.utc / NANOS * NANOS + t.utc % NANOS;
    }
  }

  lemma LastArm(number: fieldNumber, body: bytes)
    requires |PutField(number, body)| < WORD
    ensures Walk(VisitValue, None, PutField(number, body)) == VisitValue(None, LengthField(number, body))
  {
    hide Walk;
    FieldNotEmpty(number, body);
    WalkLast(VisitValue, None, number, body);
  }

  // Map entries

  function EntryBody(name: bytes, v: AttributeValue): bytes {
    PutField(1, name) + PutField(2, EncodeValue(v))
  }

  lemma ReadEncodedEntry(name: bytes, v: AttributeValue, into: ArmMap)
    requires |EntryBody(name, v)| < WORD && Utf8.WellFormed(name)
    ensures EncodableValue(v) ==> ReadEntry(EntryBody(name, v), into) == Ok(into[name := Some(NormalValue(v))])
    ensures !EncodableValue(v) ==> ReadEntry(EntryBody(name, v), into).Err?
  {
    hide Walk, PutField, EncodeValue, ReadValue, EncodableValue, NormalValue;
    FieldNotEmpty(1, name);
    FieldNotEmpty(2, EncodeValue(v));
    WalkPut(VisitEntry, Entry([], None), 1, name, PutField(2, EncodeValue(v)));
    WalkLast(VisitEntry, Entry(name, None), 2, EncodeValue(v));
    ReadEncodedValue(v);
  }

  ghost predicate AllEncodable(names: seq<bytes>, values: map<bytes, AttributeValue>)
    requires forall k :: k in names ==> k in values
  {
    forall k :: k in names ==> EncodableValue(values[k])
  }

  function Arms(names: seq<bytes>, values: map<bytes, AttributeValue>): ArmMap
    requires forall k :: k in names ==> k in values
  {
    map k | k in names :: Some(NormalValue(values[k]))
  }

  lemma WalkEntry(name: bytes, v: AttributeValue, options: DecodeOptions, raw: Raw, rest: bytes)
    requires |PutEntry(name, EncodeValue(v))| < WORD && Utf8.WellFormed(name)
    ensures raw.entries + 1 <= options.maxAttributeCount && EncodableValue(v)
            ==> Walk(EventVisitor(options), raw, PutEntry(name, EncodeValue(v)) + rest)
                == Walk(EventVisitor(options), raw.(entries := raw.entries + 1, attributes := raw.attributes[name := Some(NormalValue(v))]), rest)
    ensures !(raw.entries + 1 <= options.maxAttributeCount && EncodableValue(v))
            ==> Walk(EventVisitor(options), raw, PutEntry(name, EncodeValue(v)) + rest).Err?
  {
    hide Walk, PutField, EncodeValue, ReadEntry, EncodableValue, NormalValue;
    FieldNotEmpty(5, EntryBody(name, v));
    WalkPut(EventVisitor(options), raw, 5, EntryBody(name, v), rest);
    ReadEncodedEntry(name, v, raw.attributes);
  }

  lemma ArmsUnfold(names: seq<bytes>, values: map<bytes, AttributeValue>, before: ArmMap)
    requires names != [] && forall k :: k in names ==> k in values
    ensures before + Arms(names, values) == before[names[0] := Some(NormalValue(values[names[0]]))] + Arms(names[1..], values)
  {
    hide NormalValue;
    assert forall k :: k in names <==> k == names[0] || k in names[1..];
  }

  lemma EncodableUnfolds(names: seq<bytes>, values: map<bytes, AttributeValue>)
    requires names != [] && forall k :: k in names ==> k in values
    ensures AllEncodable(names, values) <==> EncodableValue(values[names[0]]) && AllEncodable(names[1..], values)
  {
    hide EncodableValue;
    assert forall k :: k in names <==> k == names[0] || k in names[1..];
  }

  lemma {:induction false} WalkEntries(names: seq<bytes>, values: map<bytes, AttributeValue>, options: DecodeOptions, raw: Raw, rest: bytes)
    requires forall k :: k in names ==> k in values && Utf8.WellFormed(k)
    requires |PutEntries(names, values)| < WORD && raw.entries <= options.maxAttributeCount
    ensures AllEncodable(names, values) && raw.entries + |names| <= options.maxAttributeCount
            ==> Walk(EventVisitor(options), raw, PutEntries(names, values) + rest)
                == Walk(EventVisitor(options), raw.(entries := raw.entries + |names|, attributes := raw.attributes + Arms(names, values)), rest)
    ensures !(AllEncodable(names, values) && raw.entries + |names| <= options.maxAttributeCount)
            ==> Walk(EventVisitor(options), raw, PutEntries(names, values) + rest).Err?
    decreases |names|
  {
    hide Walk, PutEntry, EncodeValue, EncodableValue, NormalValue, Utf8.WellFormed;
    if names == [] {
      assert PutEntries(names, values) + rest == rest;
      assert raw.attributes + Arms(names, values) == raw.attributes;
    } else {
      hide AllEncodable, Arms;
      var name, tail := names[0], names[1..];
      var v := values[name];
      var after := PutEntries(tail, values) + rest;
      assert PutEntries(names, values) + rest == PutEntry(name, EncodeValue(v)) + after;
      EncodableUnfolds(names, values);
      WalkEntry(name, v, options, raw, after);
      if raw.entries + 1 <= options.maxAttributeCount && EncodableValue(v) {
        var next := raw.(entries := raw.entries + 1, attributes := raw.attributes[name := Some(NormalValue(v))]);
        WalkEntries(tail, values, options, next, rest);
        ArmsUnfold(names, values, raw.attributes);
      }
    }
  }

  // The data

  ghost predicate EncodablePayload(data: Payload, codec: Codec) {
    match data
    case TextData(text) => Utf8.WellFormed(text)
    case JsonText(raw) => Utf8.WellFormed(raw)
    case JsonDocument(document) => Utf8.WellFormed(codec.dump(document))
    case _ => true
  }

  /** The text a payload is written as, when it goes to `text_data`. */
  function PayloadText(data: Payload, codec: Codec): Option<bytes> {
    match data
    case TextData(text) => Some(text)
    case JsonText(raw) => Some(raw)
    case JsonDocument(document) => Some(codec.dump(document))
    case _ => None
  }

  function StoredData(typeUrl: Option<bytes>, data: Payload, codec: Codec, raw: Raw): Raw {
    var text := PayloadText(data, codec);
    if text.Some? then raw.(typeUrl := [], data := text.value, dataKind := TextField)
    else if data.NoData? then raw
    else if data.BinaryData? && typeUrl.Some? then raw.(typeUrl := typeUrl.value, data := data.octets, dataKind := ProtoField)
    else if data.BinaryData? then raw.(typeUrl := [], data := data.octets, dataKind := BinaryField)
    else raw
  }

  lemma ReadAny(typeUrl: bytes, value: bytes, into: Raw)
    requires |AnyBody(typeUrl, value)| < WORD && Utf8.WellFormed(typeUrl) && ValidUriReference(typeUrl)
    ensures StoreAny(AnyBody(typeUrl, value), into) == Ok(into.(typeUrl := typeUrl, data := value))
  {
    hide Walk, PutField, ValidUriReference;
    FieldNotEmpty(1, typeUrl);
    FieldNotEmpty(2, value);
    var start := Any([], []);
    if typeUrl != [] {
      WalkPut(VisitAny, start, 1, typeUrl, PutField(2, value));
    } else {
      assert [] + PutField(2, value) == PutField(2, value);
    }
    WalkLast(VisitAny, start.(typeUrl := typeUrl), 2, value);
  }

  lemma WalkData(typeUrl: Option<bytes>, data: Payload, codec: Codec, options: DecodeOptions, raw: Raw)
    requires |PutData(typeUrl, data, codec)| < WORD
    requires typeUrl.Some? ==> Utf8.WellFormed(typeUrl.value) && ValidUriReference(typeUrl.value)
    ensures Walk(EventVisitor(options), raw, PutData(typeUrl, data, codec))
            == if EncodablePayload(data, codec) then Ok(StoredData(typeUrl, data, codec, raw)) else Err(InvalidUtf8)
  {
    hide Walk, PutField, AnyBody, ValidUriReference, StoreAny;
    var visit := EventVisitor(options);
    match data {
      case NoData => WalkEnd(visit, raw);
      case TextData(text) => LastData(7, text, options, raw);
      case JsonText(text) => LastData(7, text, options, raw);
      case JsonDocument(document) => LastData(7, codec.dump(document), options, raw);
      case BinaryData(octets) =>
        if typeUrl.Some? {
          FieldNotEmpty(8, AnyBody(typeUrl.value, octets));
          LastData(8, AnyBody(typeUrl.value, octets), options, raw);
          ReadAny(typeUrl.value, octets, raw.(typeUrl := [], data := AnyBody(typeUrl.value, octets), dataKind := ProtoField));
        } else {
          LastData(6, octets, options, raw);
        }
    }
  }

  lemma LastData(number: fieldNumber, body: bytes, options: DecodeOptions, raw: Raw)
    requires |PutField(number, body)| < WORD && 6 <= number <= 8
    ensures Walk(EventVisitor(options), raw, PutField(number, body)) == StoreData(number, body, raw)
  {
    hide Walk, PutField, StoreData;
    FieldNotEmpty(number, body);
    WalkLast(EventVisitor(options), raw, number, body);
  }

  // The required fields

  lemma WalkText(number: fieldNumber, text: bytes, options: DecodeOptions, raw: Raw, rest: bytes)
    requires number <= 4 && Utf8.WellFormed(text) && |text| < WORD
    ensures StoreRequired(number, text, raw).Ok?
    ensures Walk(EventVisitor(options), raw, PutField(number, text) + rest)
            == Walk(EventVisitor(options), StoreRequired(number, text, raw).value, rest)
  {
    hide Walk, PutField;
    WalkPut(EventVisitor(options), raw, number, text, rest);
  }

  lemma WalkRequired(e: Event, options: DecodeOptions, rest: bytes)
    requires ValidEvent(e) && |PutRequired(e)| < WORD
    ensures Walk(EventVisitor(options), EMPTY_RAW, PutRequired(e) + rest)
            == Walk(EventVisitor(options), EMPTY_RAW.(id := e.id, source := e.source, version := VERSION, kind := e.kind), rest)
  {
    hide Walk, PutField, ValidOptions, EventVisitor, Utf8.WellFormed;
    var c := PutField(4, e.kind) + rest;
    var b := PutField(3, VERSION) + c;
    var a := PutField(2, e.source) + b;
    assert PutRequired(e) + rest == PutField(1, e.id) + a;
    FieldNotEmpty(1, e.id);
    FieldNotEmpty(2, e.source);
    FieldNotEmpty(4, e.kind);
    Utf8.AsciiIsWellFormed(VERSION);
    WalkText(1, e.id, options, EMPTY_RAW, a);
    WalkText(2, e.source, options, EMPTY_RAW.(id := e.id), b);
    WalkText(3, VERSION, options, EMPTY_RAW.(id := e.id, source := e.source), c);
    WalkText(4, e.kind, options, EMPTY_RAW.(id := e.id, source := e.source, version := VERSION), rest);
  }

  // What a scan of an encoding gives

  ghost predicate Encodable(e: Event, codec: Codec) {
    (forall k :: k in ValuesOf(e.rest) ==> EncodableValue(ValuesOf(e.rest)[k])) && EncodablePayload(e.rest.data, codec)
  }

  /** The limits leave room for the encoding. */
  predicate Within(e: Event, typeUrl: Option<bytes>, codec: Codec, options: DecodeOptions) {
    && |EncodeWith(e, typeUrl, codec)| <= options.maxEncodedSize
    && |ValuesOf(e.rest)| <= options.maxAttributeCount
  }

  function NormalArms(o: Options): ArmMap {
    map k | k in ValuesOf(o) :: Some(NormalValue(ValuesOf(o)[k]))
  }

  function ScannedRaw(e: Event, typeUrl: Option<bytes>, codec: Codec): Raw {
    StoredData(typeUrl, e.rest.data, codec,
               EMPTY_RAW.(id := e.id, source := e.source, version := VERSION, kind := e.kind,
                          attributes := NormalArms(e.rest), entries := |ValuesOf(e.rest)|))
  }

  predicate UsableUrl(typeUrl: Option<bytes>) {
    typeUrl.Some? ==> ValidUriReference(typeUrl.value)
  }

  lemma {:induction false} WellEscapedIsAscii(text: bytes)
    requires WellEscaped(text)
    ensures forall i :: 0 <= i < |text| ==> text[i] < 0x80
  {
    if text != [] {
      if text[0] == PERCENT {
        WellEscapedIsAscii(text[3..]);
        assert forall i :: 3 <= i < |text| ==> text[i] == text[3..][i - 3];
      } else {
        WellEscapedIsAscii(text[1..]);
        assert forall i :: 1 <= i < |text| ==> text[i] == text[1..][i - 1];
      }
    }
  }

  lemma UrlIsWellFormed(typeUrl: Option<bytes>)
    requires UsableUrl(typeUrl)
    ensures typeUrl.Some? ==> Utf8.WellFormed(typeUrl.value)
  {
    if typeUrl.Some? {
      WellEscapedIsAscii(typeUrl.value);
      Utf8.AsciiIsWellFormed(typeUrl.value);
    }
  }

  lemma NamesAreWellFormed(o: Options)
    requires ValidOptions(o)
    ensures forall k :: k in ValuesOf(o) ==> Utf8.WellFormed(k)
  {
    hide NameOf, Utf8.WellFormed;
    forall k | k in ValuesOf(o)
      ensures Utf8.WellFormed(k)
    {
      if k in o.extensions {
        ValidNameIsAscii(k);
      } else {
        ContextNameIsAscii(k, o);
      }
    }
  }

  lemma ContextNameIsAscii(k: bytes, o: Options)
    requires k in ContextValues(o)
    ensures Utf8.WellFormed(k)
  {
    hide NameOf, Utf8.WellFormed;
    var r: Reserved :| NameOf(r) == k;
    ReservedNamesAreValid(r);
    Utf8.AsciiIsWellFormed(k);
  }

  lemma ArmsOfAll(o: Options)
    ensures var values := ValuesOf(o);
            var names := Order.Sorted(values.Keys);
            && (AllEncodable(names, values) <==> forall k :: k in values ==> EncodableValue(values[k]))
            && map[] + Arms(names, values) == NormalArms(o)
  {
    hide ValuesOf, EncodableValue, NormalValue, Order.Sorted;
  }

  lemma ScanOfEncoding(e: Event, typeUrl: Option<bytes>, codec: Codec, options: DecodeOptions)
    requires ValidEvent(e) && UsableUrl(typeUrl) && |EncodeWith(e, typeUrl, codec)| < WORD
    ensures Encodable(e, codec) && Within(e, typeUrl, codec, options)
            ==> ScanLimited(EncodeWith(e, typeUrl, codec), options) == Ok(ScannedRaw(e, typeUrl, codec))
    ensures !(Encodable(e, codec) && Within(e, typeUrl, codec, options))
            ==> ScanLimited(EncodeWith(e, typeUrl, codec), options).Err?
  {
    hide Walk, PutRequired, PutEntries, PutData, ValuesOf, Utf8.WellFormed, EventVisitor, StoredData, NormalValue,
         EncodableValue, EncodablePayload, ValidUriReference, AllEncodable, Arms, NormalArms, Order.Sorted, MakeRequired, ValidOptions;
    var values := ValuesOf(e.rest);
    var names := Order.Sorted(values.Keys);
    var data := PutData(typeUrl, e.rest.data, codec);
    var raw := EMPTY_RAW.(id := e.id, source := e.source, version := VERSION, kind := e.kind);
    assert EncodeWith(e, typeUrl, codec) == PutRequired(e) + (PutEntries(names, values) + data);
    WalkRequired(e, options, PutEntries(names, values) + data);
    NamesAreWellFormed(e.rest);
    WalkEntries(names, values, options, raw, data);
    ArmsOfAll(e.rest);
    UrlIsWellFormed(typeUrl);
    WalkData(typeUrl, e.rest.data, codec, options, raw.(entries := |values|, attributes := NormalArms(e.rest)));
  }
}
