/** The main results for the Protocol Buffers format: what an encoding decodes to, when it decodes at all,
    and that whatever decodes is its own normal form
    (include/cloudevents/format/protobuf_format.hpp; fuzz/fuzz_protobuf_format.cpp). */
module ProtobufRoundTrip {
  import opened Wrappers
  import opened Arithmetic
  import opened Attributes
  import opened JsonDom
  import opened ProtobufDecode
  import opened ProtobufEncode
  import opened ProtobufLaws
  import opened Timestamp
  import Order
  import Utf8

  // Applying the attributes, in whatever order the map is walked

  predicate Acceptable(name: bytes, arm: Arm) {
    arm.Some? &&
    match ReservedAs(name)
    case Some(DataContentType) => arm.value.Text? && MakeContentType(arm.value.text).Ok?
    case Some(DataSchema) => (arm.value.Uri? || arm.value.UriRef?) && MakeOptional(arm.value.text).Ok?
    case Some(Subject) => arm.value.Text? && MakeOptional(arm.value.text).Ok?
    case Some(Time) => arm.value.Instant?
    case _ => MakeExtensionName(name).Ok?
  }

  ghost predicate AllAcceptable(keys: seq<bytes>, attributes: ArmMap)
    requires forall k :: k in keys ==> k in attributes
  {
    forall k :: k in keys ==> Acceptable(k, attributes[k])
  }

  /** The value of an acceptable attribute. */
  function ValueAt(name: bytes, attributes: ArmMap): AttributeValue
    requires name in attributes && Acceptable(name, attributes[name])
  {
    attributes[name].value
  }

  function TextAt(r: Reserved, keys: seq<bytes>, attributes: ArmMap, otherwise: Option<bytes>): Option<bytes>
    requires forall k :: k in keys ==> k in attributes && Acceptable(k, attributes[k])
    requires r == DataContentType || r == DataSchema || r == Subject
  {
    ReservedAsName(r);
    if NameOf(r) in keys then
      var v := ValueAt(NameOf(r), attributes);
      Some(v.text)
    else otherwise
  }

  function TimeAt(keys: seq<bytes>, attributes: ArmMap, otherwise: Option<Timestamp>): Option<Timestamp>
    requires forall k :: k in keys ==> k in attributes && Acceptable(k, attributes[k])
  {
    ReservedAsName(Attributes.Time);
    if NameOf(Attributes.Time) in keys then
      var v := ValueAt(NameOf(Attributes.Time), attributes);
      Some(v.time)
    else otherwise
  }

  function ExtensionsAt(keys: seq<bytes>, attributes: ArmMap): map<bytes, AttributeValue>
    requires forall k :: k in keys ==> k in attributes && Acceptable(k, attributes[k])
  {
    map k | k in keys && ReservedAs(k).None? :: ValueAt(k, attributes)
  }

  /** The options the attributes of a map make up. */
  function Collected(keys: seq<bytes>, attributes: ArmMap, into: Options): Options
    requires forall k :: k in keys ==> k in attributes && Acceptable(k, attributes[k])
  {
    Options(
      TextAt(DataContentType, keys, attributes, into.datacontenttype),
      TextAt(DataSchema, keys, attributes, into.dataschema),
      TextAt(Subject, keys, attributes, into.subject),
      TimeAt(keys, attributes, into.time),
      into.extensions + ExtensionsAt(keys, attributes),
      into.data)
  }

  lemma ApplyOne(name: bytes, arm: Arm, into: Options)
    ensures Acceptable(name, arm) <==> arm.Some? && ApplyAttribute(name, arm.value, into).Ok?
    ensures Acceptable(name, arm) ==>
              ApplyAttribute(name, arm.value, into).value
              == match ReservedAs(name)
                 case Some(DataContentType) => into.(datacontenttype := Some(arm.value.text))
                 case Some(DataSchema) => into.(dataschema := Some(arm.value.text))
                 case Some(Subject) => into.(subject := Some(arm.value.text))
                 case Some(Time) => into.(time := Some(arm.value.time))
                 case _ => into.(extensions := into.extensions[name := arm.value])
    ensures Acceptable(name, arm) && ReservedAs(name).Some? ==>
              ReservedAs(name).value in {DataContentType, DataSchema, Subject, Attributes.Time}
  {
    hide ReservedAs, ValidName, Utf8.WellFormed, Subtype;
  }

  lemma CollectStep(keys: seq<bytes>, attributes: ArmMap, into: Options)
    requires keys != [] && forall k :: k in keys ==> k in attributes && Acceptable(k, attributes[k])
    ensures var applied := ApplyAttribute(keys[0], ValueAt(keys[0], attributes), into);
            applied.Ok? && Collected(keys, attributes, into) == Collected(keys[1..], attributes, applied.value)
  {
    hide NameOf, ReservedAs, Acceptable, ApplyAttribute, ExtensionsAt;
    var name, tail := keys[0], keys[1..];
    assert forall k :: k in keys <==> k == name || k in tail;
    ApplyOne(name, attributes[name], into);
    NameOfReserved(name);
    ReservedAsName(DataContentType);
    ReservedAsName(DataSchema);
    ReservedAsName(Subject);
    ReservedAsName(Attributes.Time);
    ExtensionsStep(keys, attributes, into.extensions);
  }

  lemma ExtensionsStep(keys: seq<bytes>, attributes: ArmMap, into: map<bytes, AttributeValue>)
    requires keys != [] && forall k :: k in keys ==> k in attributes && Acceptable(k, attributes[k])
    ensures into + ExtensionsAt(keys, attributes)
            == (if ReservedAs(keys[0]).None? then into[keys[0] := ValueAt(keys[0], attributes)] else into)
               + ExtensionsAt(keys[1..], attributes)
  {
    hide ReservedAs, Acceptable;
    assert forall k :: k in keys <==> k == keys[0] || k in keys[1..];
  }

  /** Applying succeeds exactly when each attribute is acceptable, and the order does not show. */
  lemma {:induction false} ApplyExactly(keys: seq<bytes>, attributes: ArmMap, into: Options)
    requires forall k :: k in keys ==> k in attributes
    ensures ApplyAttributes(keys, attributes, into).Ok? <==> AllAcceptable(keys, attributes)
    ensures AllAcceptable(keys, attributes) ==> ApplyAttributes(keys, attributes, into) == Ok(Collected(keys, attributes, into))
    decreases |keys|
  {
    hide NameOf, ReservedAs, Acceptable, ApplyAttribute, Collected;
    if keys == [] {
      CollectNothing(attributes, into);
    } else {
      var name, tail := keys[0], keys[1..];
      assert forall k :: k in keys <==> k == name || k in tail;
      ApplyOne(name, attributes[name], into);
      if Acceptable(name, attributes[name]) {
        ApplyExactly(tail, attributes, ApplyAttribute(name, attributes[name].value, into).value);
        if AllAcceptable(keys, attributes) {
          CollectStep(keys, attributes, into);
        }
      }
    }
  }

  lemma CollectNothing(attributes: ArmMap, into: Options)
    ensures Collected([], attributes, into) == into
  {
    assert into.extensions + ExtensionsAt([], attributes) == into.extensions;
  }

  // The normal form

  function NormalOptions(o: Options): Options {
    o.(time := if o.time.Some? then Some(NormalInstant(o.time.value)) else None,
       extensions := map k | k in o.extensions :: NormalValue(o.extensions[k]))
  }

  function NormalData(typeUrl: Option<bytes>, o: Options, codec: Codec): Payload {
    var text := PayloadText(o.data, codec);
    if text.Some? then TextData(text.value)
    else if o.data == BinaryData([]) && o.datacontenttype.None? && typeUrl.None? then NoData
    else o.data
  }

  /** The options with the data as decoding leaves it: a payload sent as `proto_data` fills a missing
      content type and a missing schema. */
  function Filled(kept: Options, typeUrl: Option<bytes>, data: Payload, asAny: bool): Options {
    var typed := if asAny && kept.datacontenttype.None? then kept.(datacontenttype := Some(ProtobufMediaType())) else kept;
    var described := if asAny && typed.dataschema.None? && typeUrl != Some([]) then typed.(dataschema := typeUrl) else typed;
    described.(data := data)
  }

  /** What the wire keeps of an event: instants in UTC, JSON payloads as text, and no empty binary payload
      without a content type. */
  function Normal(e: Event, typeUrl: Option<bytes>, codec: Codec): Event {
    e.(rest := Filled(NormalOptions(e.rest), typeUrl, NormalData(typeUrl, e.rest, codec),
                      typeUrl.Some? && e.rest.data.BinaryData?))
  }

  lemma ContextValueAt(o: Options, name: bytes)
    ensures name in ContextValues(o) ==>
              || (name == NameOf(DataContentType) && o.datacontenttype.Some? && ContextValues(o)[name] == Text(o.datacontenttype.value))
              || (name == NameOf(DataSchema) && o.dataschema.Some? && ContextValues(o)[name] == Uri(o.dataschema.value))
              || (name == NameOf(Subject) && o.subject.Some? && ContextValues(o)[name] == Text(o.subject.value))
              || (name == NameOf(Attributes.Time) && o.time.Some? && ContextValues(o)[name] == Instant(o.time.value))
    ensures NameOf(DataContentType) in ContextValues(o) <==> o.datacontenttype.Some?
    ensures NameOf(DataSchema) in ContextValues(o) <==> o.dataschema.Some?
    ensures NameOf(Subject) in ContextValues(o) <==> o.subject.Some?
    ensures NameOf(Attributes.Time) in ContextValues(o) <==> o.time.Some?
  {
    hide NameOf;
    NamesDiffer(DataContentType, DataSchema);
    NamesDiffer(DataContentType, Subject);
    NamesDiffer(DataContentType, Attributes.Time);
    NamesDiffer(DataSchema, Subject);
    NamesDiffer(DataSchema, Attributes.Time);
    NamesDiffer(Subject, Attributes.Time);
  }

  lemma ValueAccepted(o: Options, name: bytes)
    requires ValidOptions(o) && name in ValuesOf(o)
    ensures Acceptable(name, Some(NormalValue(ValuesOf(o)[name])))
    ensures name in o.extensions ==> name !in ContextValues(o) && ReservedAs(name).None?
  {
    hide NameOf, ReservedAs, Utf8.WellFormed, Subtype, NormalInstant, ContextValues, ValidName;
    ContextValueAt(o, name);
    ReservedAsName(DataContentType);
    ReservedAsName(DataSchema);
    ReservedAsName(Subject);
    ReservedAsName(Attributes.Time);
  }

  lemma CollectedIsNormal(o: Options, keys: seq<bytes>)
    requires ValidOptions(o) && forall k :: k in keys <==> k in ValuesOf(o)
    ensures AllAcceptable(keys, NormalArms(o))
    ensures Collected(keys, NormalArms(o), NO_OPTIONS) == NormalOptions(o).(data := NoData)
  {
    hide NameOf, ReservedAs, ContextValues, Acceptable;
    forall k | k in keys
      ensures Acceptable(k, NormalArms(o)[k])
    {
      ValueAccepted(o, k);
    }
    assert AllAcceptable(keys, NormalArms(o));
    CollectedFields(o, keys);
    CollectedExtensions(o, keys);
  }

  lemma CollectedFields(o: Options, keys: seq<bytes>)
    requires ValidOptions(o) && forall k :: k in keys <==> k in ValuesOf(o)
    requires AllAcceptable(keys, NormalArms(o))
    ensures var c := Collected(keys, NormalArms(o), NO_OPTIONS);
            && c.datacontenttype == o.datacontenttype && c.dataschema == o.dataschema && c.subject == o.subject
            && c.time == NormalOptions(o).time && c.data == NoData
  {
    hide NameOf, ReservedAs, ContextValues, Acceptable, NormalInstant, ExtensionsAt;
    ContextNotExtension(o, DataContentType);
    ContextNotExtension(o, DataSchema);
    ContextNotExtension(o, Subject);
    ContextNotExtension(o, Attributes.Time);
    ContextValueAt(o, NameOf(DataContentType));
    ContextValueAt(o, NameOf(DataSchema));
    ContextValueAt(o, NameOf(Subject));
    ContextValueAt(o, NameOf(Attributes.Time));
    NamesDiffer(DataContentType, DataSchema);
    NamesDiffer(DataContentType, Subject);
    NamesDiffer(DataContentType, Attributes.Time);
    NamesDiffer(DataSchema, Subject);
    NamesDiffer(DataSchema, Attributes.Time);
    NamesDiffer(Subject, Attributes.Time);
  }

  lemma ContextNotExtension(o: Options, r: Reserved)
    requires ValidOptions(o)
    ensures NameOf(r) !in o.extensions
  {
    hide NameOf, ReservedAs;
    ReservedAsName(r);
  }

  lemma CollectedExtensions(o: Options, keys: seq<bytes>)
    requires ValidOptions(o) && forall k :: k in keys <==> k in ValuesOf(o)
    requires AllAcceptable(keys, NormalArms(o))
    ensures Collected(keys, NormalArms(o), NO_OPTIONS).extensions == NormalOptions(o).extensions
  {
    hide NameOf, ReservedAs, ContextValues, Acceptable, NormalValue;
    forall k | k in keys
      ensures k in o.extensions <==> ReservedAs(k).None?
      ensures k in o.extensions ==> ValuesOf(o)[k] == o.extensions[k]
    {
      ValueAccepted(o, k);
      ContextValueAt(o, k);
      ReservedAsName(DataContentType);
      ReservedAsName(DataSchema);
      ReservedAsName(Subject);
      ReservedAsName(Attributes.Time);
    }
    assert map[] + ExtensionsAt(keys, NormalArms(o)) == NormalOptions(o).extensions;
  }

  // What an encoding decodes to

  lemma BuildOfScan(e: Event, typeUrl: Option<bytes>, codec: Codec)
    requires ValidEvent(e) && UsableUrl(typeUrl)
    ensures BuildEvent(ScannedRaw(e, typeUrl, codec)) == Ok(Normal(e, typeUrl, codec))
  {
    hide ValuesOf, NormalArms, NormalOptions, Utf8.WellFormed, Subtype, ValidName, ReservedAs, ValidOptions, Collected, AllAcceptable, Filled, StoredData,
         NormalData, ApplyData;
    var raw := ScannedRaw(e, typeUrl, codec);
    var keys := Order.Sorted(raw.attributes.Keys);
    ScannedAttributes(e, typeUrl, codec);
    ApplyExactly(keys, raw.attributes, NO_OPTIONS);
    NormalArmsKeys(e.rest);
    CollectedIsNormal(e.rest, keys);
    NormalKeeps(e.rest);
    UrlIsWellFormed(typeUrl);
    var scanned := EMPTY_RAW.(id := e.id, source := e.source, version := VERSION, kind := e.kind,
                              attributes := NormalArms(e.rest), entries := |ValuesOf(e.rest)|);
    DataApplied(NormalOptions(e.rest).(data := NoData), e.rest, typeUrl, codec, scanned);
    FilledIgnoresData(NormalOptions(e.rest), typeUrl, e.rest, codec);
  }

  lemma FilledIgnoresData(kept: Options, typeUrl: Option<bytes>, o: Options, codec: Codec)
    ensures forall data, asAny :: Filled(kept.(data := NoData), typeUrl, data, asAny) == Filled(kept, typeUrl, data, asAny)
  {
  }

  lemma ScannedAttributes(e: Event, typeUrl: Option<bytes>, codec: Codec)
    ensures var raw := ScannedRaw(e, typeUrl, codec);
            && raw.id == e.id && raw.source == e.source && raw.version == VERSION && raw.kind == e.kind
            && raw.attributes == NormalArms(e.rest)
  {
    hide NormalArms;
  }

  lemma NormalArmsKeys(o: Options)
    ensures NormalArms(o).Keys == ValuesOf(o).Keys
  {
    hide ValuesOf;
  }

  lemma NormalKeeps(o: Options)
    ensures var n := NormalOptions(o);
            n.datacontenttype == o.datacontenttype && n.dataschema == o.dataschema && n.subject == o.subject
  {
  }

  lemma DataApplied(kept: Options, o: Options, typeUrl: Option<bytes>, codec: Codec, raw: Raw)
    requires raw.dataKind == NoField && kept.datacontenttype == o.datacontenttype && kept.data == NoData
    requires typeUrl.Some? ==> Utf8.WellFormed(typeUrl.value)
    ensures ApplyData(StoredData(typeUrl, o.data, codec, raw), kept)
            == Ok(Filled(kept, typeUrl, NormalData(typeUrl, o, codec), typeUrl.Some? && o.data.BinaryData?))
  {
    hide Utf8.WellFormed, ProtobufMediaType;
    match o.data
    case BinaryData(octets) =>
    case _ =>
  }

  /** Decoding what was encoded gives the normal form, and fails exactly when a text is not well-formed
      UTF-8, an instant is out of range or a limit is too tight. The size is bounded by the width of
      size_t, as every size in the program is. */
  lemma DecodeOfEncodeWith(e: Event, typeUrl: Option<bytes>, codec: Codec, options: DecodeOptions)
    requires ValidEvent(e) && UsableUrl(typeUrl) && |EncodeWith(e, typeUrl, codec)| < WORD
    ensures Decode(EncodeWith(e, typeUrl, codec), options).Ok? <==> Encodable(e, codec) && Within(e, typeUrl, codec, options)
    ensures Decode(EncodeWith(e, typeUrl, codec), options).Ok?
            ==> Decode(EncodeWith(e, typeUrl, codec), options) == Ok(Normal(e, typeUrl, codec))
  {
    hide EncodeWith, ScanLimited, BuildEvent, Encodable, Within, ScannedRaw, Normal, ValidEvent, UsableUrl;
    ScanOfEncoding(e, typeUrl, codec, options);
    BuildOfScan(e, typeUrl, codec);
  }

  lemma ProtoTypeUrlIsUsable(e: Event)
    ensures UsableUrl(ProtoTypeUrl(e))
  {
  }

  lemma DecodeOfEncode(e: Event, codec: Codec, options: DecodeOptions)
    requires ValidEvent(e) && |Encode(e, codec)| < WORD
    ensures Decode(Encode(e, codec), options).Ok? <==> Encodable(e, codec) && Within(e, ProtoTypeUrl(e), codec, options)
    ensures Decode(Encode(e, codec), options).Ok? ==> Decode(Encode(e, codec), options) == Ok(Normal(e, ProtoTypeUrl(e), codec))
  {
    hide EncodeWith, Decode, Encodable, Within, Normal, ValidEvent, UsableUrl, ProtoTypeUrl;
    ProtoTypeUrlIsUsable(e);
    DecodeOfEncodeWith(e, ProtoTypeUrl(e), codec, options);
  }
}
