/** What can come out of the Protocol Buffers decoder, what limits change, and batches
    (include/cloudevents/format/protobuf_format.hpp; fuzz/fuzz_protobuf_format.cpp). */
module ProtobufImage {
  import opened Wrappers
  import opened Arithmetic
  import opened Wire
  import opened Attributes
  import opened JsonDom
  import opened ProtobufDecode
  import opened ProtobufEncode
  import opened ProtobufLaws
  import opened ProtobufRoundTrip
  import opened Timestamp
  import Order
  import Utf8

  // What a visitor keeps, a walk keeps; where one visitor follows another, so do their walks

  lemma {:induction false} VisitsKeep<S(!new)>(visit: (S, Field) -> Result<S>, inv: S -> bool, start: S, fields: seq<Field>)
    requires inv(start) && forall s, f :: inv(s) && visit(s, f).Ok? ==> inv(visit(s, f).value)
    ensures Visits(visit, start, fields).Ok? ==> inv(Visits(visit, start, fields).value)
    decreases |fields|
  {
    if fields != [] && visit(start, fields[0]).Ok? {
      VisitsKeep(visit, inv, visit(start, fields[0]).value, fields[1..]);
    }
  }

  lemma WalkKeeps<S(!new)>(visit: (S, Field) -> Result<S>, inv: S -> bool, start: S, body: bytes)
    requires inv(start) && forall s, f :: inv(s) && visit(s, f).Ok? ==> inv(visit(s, f).value)
    ensures Walk(visit, start, body).Ok? ==> inv(Walk(visit, start, body).value)
  {
    hide FieldsOf;
    VisitsKeep(visit, inv, start, FieldsOf(body).read);
  }

  lemma {:induction false} VisitsFollow<S(!new)>(tight: (S, Field) -> Result<S>, loose: (S, Field) -> Result<S>, start: S, fields: seq<Field>)
    requires forall s, f :: tight(s, f).Ok? ==> loose(s, f) == tight(s, f)
    ensures Visits(tight, start, fields).Ok? ==> Visits(loose, start, fields) == Visits(tight, start, fields)
    decreases |fields|
  {
    if fields != [] && tight(start, fields[0]).Ok? {
      VisitsFollow(tight, loose, tight(start, fields[0]).value, fields[1..]);
    }
  }

  lemma WalkFollows<S(!new)>(tight: (S, Field) -> Result<S>, loose: (S, Field) -> Result<S>, start: S, body: bytes)
    requires forall s, f :: tight(s, f).Ok? ==> loose(s, f) == tight(s, f)
    ensures Walk(tight, start, body).Ok? ==> Walk(loose, start, body) == Walk(tight, start, body)
  {
    hide FieldsOf;
    VisitsFollow(tight, loose, start, FieldsOf(body).read);
  }

  // Limits only restrict

  predicate Tighter(tight: DecodeOptions, loose: DecodeOptions) {
    && tight.maxEncodedSize <= loose.maxEncodedSize
    && tight.maxAttributeCount <= loose.maxAttributeCount
    && tight.maxBatchEventCount <= loose.maxBatchEventCount
  }

  lemma StoreFieldFollows(tight: DecodeOptions, loose: DecodeOptions, raw: Raw, field: Field)
    requires Tighter(tight, loose)
    ensures StoreField(tight, raw, field).Ok? ==> StoreField(loose, raw, field) == StoreField(tight, raw, field)
  {
    hide StoreRequired, StoreData, ReadEntry;
  }

  /** Under tighter limits an event is refused or is the event that looser limits give. */
  lemma LimitsOnlyRestrict(encoded: bytes, tight: DecodeOptions, loose: DecodeOptions)
    requires Tighter(tight, loose) && Decode(encoded, tight).Ok?
    ensures Decode(encoded, loose) == Decode(encoded, tight)
  {
    hide StoreField, BuildEvent, Walk;
    forall raw, field {
      StoreFieldFollows(tight, loose, raw, field);
    }
    WalkFollows(EventVisitor(tight), EventVisitor(loose), EMPTY_RAW, encoded);
  }

  lemma {:induction false} AllUnderLimits(bodies: seq<bytes>, tight: DecodeOptions, loose: DecodeOptions)
    requires Tighter(tight, loose) && DecodeAll(bodies, tight).Ok?
    ensures DecodeAll(bodies, loose) == DecodeAll(bodies, tight)
  {
    hide Decode;
    if bodies != [] {
      LimitsOnlyRestrict(bodies[0], tight, loose);
      AllUnderLimits(bodies[1..], tight, loose);
    }
  }

  lemma BatchLimitsOnlyRestrict(encoded: bytes, tight: DecodeOptions, loose: DecodeOptions)
    requires Tighter(tight, loose) && DecodeBatch(encoded, tight).Ok?
    ensures DecodeBatch(encoded, loose) == DecodeBatch(encoded, tight)
  {
    hide Walk, Decode;
    WalkFollows(BatchVisitor(tight.maxBatchEventCount), BatchVisitor(loose.maxBatchEventCount), [], encoded);
    AllUnderLimits(BatchBodies(encoded, tight).value, tight, loose);
  }

  /** After any number of fields, no more bodies are recorded than the limit allows. */
  lemma NoBodyPastTheLimit(fields: seq<Field>, limit: nat)
    ensures Visits(BatchVisitor(limit), [], fields).Ok? ==> |Visits(BatchVisitor(limit), [], fields).value| <= limit
  {
    VisitsKeep(BatchVisitor(limit), (bodies: seq<bytes>) => |bodies| <= limit, [], fields);
  }

  // Whatever decodes is in normal form

  ghost predicate ArmNormal(arm: Arm) {
    arm.Some? ==> EncodableValue(arm.value) && NormalValue(arm.value) == arm.value
  }

  lemma InstantIsNormal(seconds: int, nanos: int)
    ensures MakeInstant(seconds, nanos).Ok? ==> ArmNormal(Some(Instant(MakeInstant(seconds, nanos).value)))
  {
    if MakeInstant(seconds, nanos).Ok? {
      Euclid(seconds * NANOS + nanos, seconds, nanos, NANOS);
    }
  }

  lemma VisitValueKeeps(arm: Arm, field: Field)
    requires ArmNormal(arm) && VisitValue(arm, field).Ok?
    ensures ArmNormal(VisitValue(arm, field).value)
  {
    hide Utf8.WellFormed, Walk, NormalInstant, EncodableInstant, Signed, MakeInstant;
    if field.LengthField? && field.number == 7 && ReadTimestamp(field.body).Ok? {
      var raw := Walk(VisitTimestamp, RawInstant(0, 0), field.body).value;
      InstantIsNormal(raw.seconds, raw.nanos);
    }
  }

  lemma ReadValueIsNormal(body: bytes)
    ensures ReadValue(body).Ok? ==> ArmNormal(ReadValue(body).value)
  {
    hide VisitValue, ArmNormal, Walk;
    forall arm, field | ArmNormal(arm) && VisitValue(arm, field).Ok?
      ensures ArmNormal(VisitValue(arm, field).value)
    {
      VisitValueKeeps(arm, field);
    }
    NoArmIsNormal();
    WalkKeeps(VisitValue, arm => ArmNormal(arm), None, body);
  }

  lemma NoArmIsNormal()
    ensures ArmNormal(None)
  {
  }

  lemma VisitEntryKeeps(entry: Entry, field: Field)
    requires ArmNormal(entry.value) && VisitEntry(entry, field).Ok?
    ensures ArmNormal(VisitEntry(entry, field).value.value)
  {
    hide ArmNormal, ReadValue;
    if field.LengthField? {
      ReadValueIsNormal(field.body);
    }
  }

  ghost predicate ArmsNormal(attributes: ArmMap) {
    forall k :: k in attributes ==> ArmNormal(attributes[k])
  }

  lemma ReadEntryKeeps(body: bytes, attributes: ArmMap)
    requires ArmsNormal(attributes) && ReadEntry(body, attributes).Ok?
    ensures ArmsNormal(ReadEntry(body, attributes).value)
    ensures |ReadEntry(body, attributes).value| <= |attributes| + 1
  {
    hide VisitEntry, ArmNormal, Walk;
    forall entry: Entry, field | ArmNormal(entry.value) && VisitEntry(entry, field).Ok?
      ensures ArmNormal(VisitEntry(entry, field).value.value)
    {
      VisitEntryKeeps(entry, field);
    }
    NoArmIsNormal();
    WalkKeeps(VisitEntry, (entry: Entry) => ArmNormal(entry.value), Entry([], None), body);
    var entry := Walk(VisitEntry, Entry([], None), body).value;
    assert ReadEntry(body, attributes).value == attributes[entry.key := entry.value];
  }

  ghost predicate DataWellFormed(raw: Raw) {
    && (raw.dataKind == TextField ==> Utf8.WellFormed(raw.data))
    && (raw.dataKind == ProtoField ==> Utf8.WellFormed(raw.typeUrl) && ValidUriReference(raw.typeUrl))
  }

  /** What every step of a scan keeps. */
  ghost predicate RawNormal(raw: Raw, limit: nat) {
    ArmsNormal(raw.attributes) && |raw.attributes| <= raw.entries <= limit && DataWellFormed(raw)
  }

  lemma StoreAnyKeeps(body: bytes, raw: Raw)
    requires raw.dataKind == ProtoField && StoreAny(body, raw).Ok?
    ensures DataWellFormed(StoreAny(body, raw).value) && SameAttributes(raw, StoreAny(body, raw).value)
  {
    hide Walk, Utf8.WellFormed, ValidUriReference;
    assert Utf8.WellFormed([]) by {
      Utf8.AsciiIsWellFormed([]);
    }
    WalkKeeps(VisitAny, (any: Any) => Utf8.WellFormed(any.typeUrl), Any([], []), body);
  }

  predicate SameAttributes(a: Raw, b: Raw) {
    a.attributes == b.attributes && a.entries == b.entries
  }

  lemma StoreDataKeeps(number: fieldNumber, body: bytes, raw: Raw)
    requires StoreData(number, body, raw).Ok?
    ensures DataWellFormed(StoreData(number, body, raw).value) && SameAttributes(raw, StoreData(number, body, raw).value)
  {
    hide Utf8.WellFormed, ValidUriReference, StoreAny;
    if number == 8 {
      StoreAnyKeeps(body, raw.(typeUrl := [], data := body, dataKind := ProtoField));
    }
  }

  lemma StoreFieldKeeps(options: DecodeOptions, raw: Raw, field: Field)
    requires RawNormal(raw, options.maxAttributeCount) && StoreField(options, raw, field).Ok?
    ensures RawNormal(StoreField(options, raw, field).value, options.maxAttributeCount)
  {
    hide ArmsNormal, ReadEntry, StoreData, Utf8.WellFormed, ValidUriReference;
    if field.LengthField? && field.number == 5 {
      ReadEntryKeeps(field.body, raw.attributes);
    } else if field.LengthField? && 6 <= field.number <= 8 {
      StoreDataKeeps(field.number, field.body, raw);
    }
  }

  lemma ScanIsNormal(encoded: bytes, options: DecodeOptions)
    ensures Scan(encoded, options).Ok? ==> RawNormal(Scan(encoded, options).value, options.maxAttributeCount)
  {
    hide StoreField, Walk, RawNormal;
    forall raw, field | RawNormal(raw, options.maxAttributeCount) && StoreField(options, raw, field).Ok?
      ensures RawNormal(StoreField(options, raw, field).value, options.maxAttributeCount)
    {
      StoreFieldKeeps(options, raw, field);
    }
    EmptyRawIsNormal(options.maxAttributeCount);
    WalkKeeps(EventVisitor(options), raw => RawNormal(raw, options.maxAttributeCount), EMPTY_RAW, encoded);
  }

  lemma EmptyRawIsNormal(limit: nat)
    ensures RawNormal(EMPTY_RAW, limit)
  {
  }

  /** The content type given to a `proto_data` payload passes the check it is spared. */
  lemma ProtobufMediaTypeIsValid()
    ensures MakeContentType(ProtobufMediaType()).Ok?
  {
    hide Subtype;
    assert ProtobufMediaType() == Ascii("application") + ['/' as int] + Ascii("protobuf");
    PlainMediaType(Ascii("application"), Ascii("protobuf"));
    Utf8.AsciiIsWellFormed(ProtobufMediaType());
  }

  // From a scan in normal form to an event in normal form

  ghost predicate OptionsNormal(o: Options) {
    && ValidOptions(o)
    && (o.time.Some? ==> EncodableInstant(o.time.value) && NormalInstant(o.time.value) == o.time.value)
    && forall k :: k in o.extensions ==> ArmNormal(Some(o.extensions[k]))
  }

  lemma CollectedNormal(keys: seq<bytes>, attributes: ArmMap)
    requires (forall k :: k in keys ==> k in attributes) && AllAcceptable(keys, attributes) && ArmsNormal(attributes)
    ensures OptionsNormal(Collected(keys, attributes, NO_OPTIONS))
  {
    hide NameOf, ReservedAs, Utf8.WellFormed, ValidName, NormalInstant, EncodableInstant, Subtype;
    var o := Collected(keys, attributes, NO_OPTIONS);
    ReservedAsName(DataContentType);
    ReservedAsName(DataSchema);
    ReservedAsName(Subject);
    ReservedAsName(Attributes.Time);
    forall k | k in o.extensions
      ensures MakeExtensionName(k).Ok? && ArmNormal(Some(o.extensions[k]))
    {
      assert k in keys && Acceptable(k, attributes[k]) && ArmNormal(attributes[k]);
    }
  }

  lemma CollectedKeys(keys: seq<bytes>, attributes: ArmMap)
    requires (forall k :: k in keys ==> k in attributes) && AllAcceptable(keys, attributes)
    ensures ValuesOf(Collected(keys, attributes, NO_OPTIONS)).Keys <= attributes.Keys
  {
    hide NameOf, ReservedAs, Acceptable, ContextValues;
    var o := Collected(keys, attributes, NO_OPTIONS);
    forall k | k in ValuesOf(o)
      ensures k in attributes
    {
      ContextValueAt(o, k);
    }
  }

  /** Decoding leaves no payload that encoding would not give back. */
  predicate DataNormal(o: Options) {
    match o.data
    case NoData => true
    case TextData(text) => Utf8.Accepts(text)
    case BinaryData(octets) => octets != [] || o.datacontenttype.Some?
    case _ => false
  }

  /** What applying the data may change. */
  ghost predicate OnlyFilled(o: Options, r: Options) {
    && r.extensions == o.extensions && r.subject == o.subject && r.time == o.time
    && (r.datacontenttype == o.datacontenttype || r.datacontenttype == Some(ProtobufMediaType()))
    && (r.dataschema == o.dataschema || (r.dataschema.Some? && MakeOptional(r.dataschema.value).Ok?))
  }

  lemma AppliedShape(raw: Raw, o: Options)
    requires o.data == NoData && DataWellFormed(raw) && ApplyData(raw, o).Ok?
    ensures OnlyFilled(o, ApplyData(raw, o).value) && DataNormal(ApplyData(raw, o).value)
  {
    hide Utf8.WellFormed, ProtobufMediaType;
  }

  lemma FilledStaysNormal(o: Options, r: Options)
    requires OptionsNormal(o) && OnlyFilled(o, r)
    ensures OptionsNormal(r)
  {
    hide MakeContentType, MakeOptional, MakeExtensionName, ProtobufMediaType, NormalInstant, EncodableInstant, ArmNormal;
    ProtobufMediaTypeIsValid();
  }

  lemma AppliedNormal(raw: Raw, o: Options)
    requires OptionsNormal(o) && o.data == NoData && DataWellFormed(raw) && ApplyData(raw, o).Ok?
    ensures var r := ApplyData(raw, o).value;
            && OptionsNormal(r) && DataNormal(r)
            && ValuesOf(r).Keys <= ValuesOf(o).Keys + {NameOf(DataContentType), NameOf(DataSchema)}
  {
    hide *;
    AppliedShape(raw, o);
    FilledStaysNormal(o, ApplyData(raw, o).value);
    FilledKeys(o, ApplyData(raw, o).value);
  }

  lemma FilledKeys(o: Options, r: Options)
    requires OnlyFilled(o, r)
    ensures ValuesOf(r).Keys <= ValuesOf(o).Keys + {NameOf(DataContentType), NameOf(DataSchema)}
  {
    hide NameOf, ContextValues, MakeOptional, ProtobufMediaType;
    forall k | k in ValuesOf(r)
      ensures k in ValuesOf(o).Keys + {NameOf(DataContentType), NameOf(DataSchema)}
    {
      ContextValueAt(r, k);
      ContextValueAt(o, k);
    }
  }

  lemma NormalOptionsEncodable(o: Options, k: bytes)
    requires OptionsNormal(o) && k in ValuesOf(o)
    ensures EncodableValue(ValuesOf(o)[k])
  {
    hide NameOf, ContextValues, Utf8.WellFormed, Subtype, ValidName, NormalInstant, EncodableInstant;
    ContextValueAt(o, k);
  }

  lemma NormalOptionsFixed(o: Options)
    requires OptionsNormal(o)
    ensures NormalOptions(o) == o
  {
    hide NormalValue, NormalInstant, EncodableInstant, EncodableValue, ValidOptions;
    forall k | k in o.extensions
      ensures NormalValue(o.extensions[k]) == o.extensions[k]
    {
      assert ArmNormal(Some(o.extensions[k]));
    }
    assert NormalOptions(o).extensions == o.extensions;
  }

  lemma NormalFixed(e: Event, codec: Codec)
    requires OptionsNormal(e.rest) && DataNormal(e.rest)
    ensures Encodable(e, codec) && Normal(e, ProtoTypeUrl(e), codec) == e
  {
    hide OptionsNormal, ValuesOf, EncodableValue, NormalOptions, ValidUriReference, EqualIgnoringCase, Utf8.WellFormed;
    NormalOptionsFixed(e.rest);
    forall k | k in ValuesOf(e.rest)
      ensures EncodableValue(ValuesOf(e.rest)[k])
    {
      NormalOptionsEncodable(e.rest, k);
    }
  }

  lemma KeyCount(small: set<bytes>, large: set<bytes>, a: bytes, b: bytes)
    requires small <= large + {a, b}
    ensures |small| <= |large| + 2
  {
    var whole := large + {a, b};
    assert |whole| <= |large| + 2;
    assert whole == small + (whole - small);
  }

  /** A decoded event is valid, encodable and its own normal form, and holds at most two attributes more
      than the entries the decoder was limited to: the content type and the schema of a `proto_data`
      payload may be filled in. */
  lemma {:induction false} DecodedIsNormal(encoded: bytes, options: DecodeOptions, codec: Codec)
    requires Decode(encoded, options).Ok?
    ensures var e := Decode(encoded, options).value;
            && ValidEvent(e) && Encodable(e, codec) && Normal(e, ProtoTypeUrl(e), codec) == e
            && |ValuesOf(e.rest)| <= options.maxAttributeCount + 2
  {
    hide Scan, OptionsNormal, DataNormal, ValuesOf, ArmsNormal, DataWellFormed, Acceptable, ApplyData, Collected, Normal, Encodable,
         ProtoTypeUrl, CheckText, NameOf;
    var e := Decode(encoded, options).value;
    var raw := Scan(encoded, options).value;
    var keys := Order.Sorted(raw.attributes.Keys);
    ScanIsNormal(encoded, options);
    ApplyExactly(keys, raw.attributes, NO_OPTIONS);
    var o := Collected(keys, raw.attributes, NO_OPTIONS);
    CollectedNormal(keys, raw.attributes);
    CollectedKeys(keys, raw.attributes);
    CollectedHasNoData(keys, raw.attributes);
    AppliedNormal(raw, o);
    NormalFixed(e, codec);
    KeyCount(ValuesOf(e.rest).Keys, raw.attributes.Keys, NameOf(DataContentType), NameOf(DataSchema));
    ValidFromParts(e, raw);
  }

  lemma CollectedHasNoData(keys: seq<bytes>, attributes: ArmMap)
    requires (forall k :: k in keys ==> k in attributes) && AllAcceptable(keys, attributes)
    ensures Collected(keys, attributes, NO_OPTIONS).data == NoData
  {
    hide TextAt, TimeAt, ExtensionsAt, Acceptable;
  }

  lemma ValidFromParts(e: Event, raw: Raw)
    requires MakeRequired(raw.id) == Ok(e.id) && MakeRequired(raw.source) == Ok(e.source) && MakeRequired(raw.kind) == Ok(e.kind)
    requires OptionsNormal(e.rest)
    ensures ValidEvent(e)
  {
    hide Utf8.WellFormed, ValidOptions;
  }

  /** Whatever decodes encodes, and the encoding decodes to an equal event under every limit that leaves
      room for it; the limits need at most two more entries than the first decode was given. */
  lemma DecodedRoundTrip(encoded: bytes, options: DecodeOptions, codec: Codec, limits: DecodeOptions)
    requires Decode(encoded, options).Ok?
    requires |Encode(Decode(encoded, options).value, codec)| <= limits.maxEncodedSize
    requires options.maxAttributeCount + 2 <= limits.maxAttributeCount
    ensures Decode(Encode(Decode(encoded, options).value, codec), limits) == Decode(encoded, options)
  {
    hide Decode, Normal, Encodable, ValuesOf, ProtoTypeUrl, ValidEvent, EncodeWith;
    var e := Decode(encoded, options).value;
    DecodedIsNormal(encoded, options, codec);
    DecodeOfEncode(e, codec, limits);
  }
}
