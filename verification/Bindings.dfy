/** Binary mode of the HTTP, Kafka, NATS and MQTT bindings: one mapping between attributes and header
    fields, instantiated with each binding's names, case rule and value encoding
    (include/cloudevents/binding/common.hpp, http.hpp, kafka.hpp, nats.hpp, mqtt.hpp). */
module Bindings {
  import opened Wrappers
  import opened JsonDom
  import opened Attributes
  import opened Headers
  import opened JsonFormat
  import Timestamp
  import Base64
  import Decimal
  import Order
  import Percent
  import Utf8

  /** The trait sets: HTTP with escaped and with literal values, MQTT with plain and with prefixed names. */
  datatype Binding = Http | HttpLiteral | Kafka | Nats | Mqtt | MqttPrefixed {
    function Prefix(): bytes {
      match this
      case Kafka => Ascii("ce_")
      case Mqtt => []
      case _ => Ascii("ce-")
    }

    function ContentTypeHeader(): bytes {
      if Kafka? || Mqtt? || MqttPrefixed? then Ascii("content-type") else Ascii("Content-Type")
    }

    function Rule(): Matching {
      if Kafka? || Mqtt? || MqttPrefixed? then CaseSensitive else CaseInsensitive
    }

    /** NATS alone carries datacontenttype as an attribute. */
    predicate ContentTypeIsAttribute() {
      Nats?
    }

    predicate OfMqtt() {
      Mqtt? || MqttPrefixed?
    }
  }

  // Values

  const LONGEST_MQTT_STRING := 65535

  predicate HasControl(text: bytes) {
    exists i :: 0 <= i < |text| && (text[i] < 0x20 || text[i] == 0x7F)
  }

  function CheckMqtt(text: bytes): Result<bytes> {
    if !Utf8.Accepts(text) then Err(InvalidUtf8)
    else if 0 in text || |text| > LONGEST_MQTT_STRING then Err(InvalidArgument)
    else Ok(text)
  }

  function CheckUtf8(text: bytes): Result<bytes> {
    if Utf8.Accepts(text) then Ok(text) else Err(InvalidUtf8)
  }

  function EncodeValue(b: Binding, text: bytes): Result<bytes> {
    match b
    case Http => if Utf8.Accepts(text) then Ok(Percent.Encode(text)) else Err(InvalidUtf8)
    case HttpLiteral => if HasControl(text) then Err(InvalidArgument) else CheckUtf8(text)
    case Kafka => CheckUtf8(text)
    case Nats => Ok(Percent.Encode(text))
    case _ => CheckMqtt(text)
  }

  function DecodeValue(b: Binding, text: bytes): Result<bytes> {
    match b
    case Http => Percent.Decode(text)
    case HttpLiteral => CheckUtf8(text)
    case Kafka => CheckUtf8(text)
    case Nats => Percent.Decode(text)
    case _ => CheckMqtt(text)
  }

  // Names

  function LowerAll(text: bytes): (r: bytes)
    ensures |r| == |text| && forall i :: 0 <= i < |text| ==> r[i] == Lower(text[i])
  {
    seq(|text|, i requires 0 <= i < |text| => Lower(text[i]))
  }

  predicate CarriesPrefix(b: Binding, field: bytes) {
    if b.Rule().CaseSensitive? then b.Prefix() <= field else StartsWithIgnoringCase(field, b.Prefix())
  }

  function AttributeNameOf(b: Binding, field: bytes): bytes
    requires |b.Prefix()| <= |field|
  {
    var name := field[|b.Prefix()|..];
    if b.Rule().CaseSensitive? then name else LowerAll(name)
  }

  // Writing

  /** `std::to_string` of an integer. */
  function SignedText(i: int): bytes {
    if i < 0 then ['-' as int] + Decimal.Plain(-i) else Decimal.Plain(i)
  }

  function RenderAttribute(v: AttributeValue): bytes
    requires Renderable(v)
  {
    match v
    case Bool(held) => if held then Ascii("true") else Ascii("false")
    case Integer(i) => SignedText(i)
    case Text(text) => text
    case Binary(octets) => Base64.Encode(octets)
    case Instant(t) => Timestamp.Render(t)
    case Uri(text) => text
    case UriRef(text) => text
  }

  /** An attribute's name and its text, before prefix and encoding. */
  function Pair(r: Reserved, text: bytes): Header {
    Header(NameOf(r), text)
  }

  function OptionalPair(r: Reserved, text: Option<bytes>): seq<Header> {
    if text.Some? then [Pair(r, text.value)] else []
  }

  function RequiredPairs(e: Event): seq<Header> {
    [Pair(SpecVersion, VERSION), Pair(Id, e.id), Pair(Source, e.source), Pair(Type, e.kind)]
  }

  function ContextPairs(e: Event): seq<Header>
    requires RenderableOptions(e.rest)
  {
    RequiredPairs(e) + OptionalPair(DataSchema, e.rest.dataschema) + OptionalPair(Subject, e.rest.subject)
    + OptionalPair(Time, TimeText(e.rest))
  }

  function ExtensionPairs(names: seq<bytes>, extensions: map<bytes, AttributeValue>): seq<Header>
    requires forall k :: k in names ==> k in extensions && Renderable(extensions[k])
  {
    if names == [] then []
    else [Header(names[0], RenderAttribute(extensions[names[0]]))] + ExtensionPairs(names[1..], extensions)
  }

  function Pairs(e: Event): seq<Header>
    requires RenderableOptions(e.rest)
  {
    ContextPairs(e) + ExtensionPairs(Order.Sorted(e.rest.extensions.Keys), e.rest.extensions)
  }

  /** The fields so far and the first refusal, after which nothing is put. */
  datatype Written = Written(entries: seq<Header>, failure: Option<Errc>)

  function PutAttribute(b: Binding, w: Written, name: bytes, text: bytes): Written {
    if w.failure.Some? then w else
    match EncodeValue(b, text)
    case Err(e) => w.(failure := Some(e))
    case Ok(encoded) => w.(entries := Put(b.Rule(), w.entries, b.Prefix() + name, encoded))
  }

  function PutAll(b: Binding, w: Written, pairs: seq<Header>): Written
    decreases |pairs|
  {
    if pairs == [] then w else PutAll(b, PutAttribute(b, w, pairs[0].name, pairs[0].value), pairs[1..])
  }

  function PutMediaType(b: Binding, w: Written, datacontenttype: Option<bytes>): Written {
    if w.failure.Some? || datacontenttype.None? then w
    else if b.ContentTypeIsAttribute() then PutAttribute(b, w, NameOf(DataContentType), datacontenttype.value)
    else w.(entries := Put(b.Rule(), w.entries, b.ContentTypeHeader(), datacontenttype.value))
  }

  function WriteAttributes(b: Binding, e: Event, into: seq<Header>): Written
    requires RenderableOptions(e.rest)
  {
    PutMediaType(b, PutAll(b, Written(into, None), Pairs(e)), e.rest.datacontenttype)
  }

  function WriteBody(data: Payload, codec: Codec): bytes {
    match data
    case NoData => []
    case BinaryData(octets) => octets
    case TextData(text) => text
    case JsonDocument(document) => codec.dump(document)
    case JsonText(raw) => raw
  }

  // Reading

  /** What a field does to the event under construction. */
  datatype Change =
    | Unchanged
    | SetId(text: bytes)
    | SetSource(text: bytes)
    | SetKind(text: bytes)
    | SetMediaType(text: bytes)
    | SetSchema(text: bytes)
    | SetSubject(text: bytes)
    | SetTime(time: Timestamp.Timestamp)
    | SetExtension(name: bytes, value: AttributeValue)

  function ChangeOf(b: Binding, attribute: bytes, value: bytes): Result<Change> {
    match ReservedAs(attribute)
    case Some(DataContentType) =>
      if !b.ContentTypeIsAttribute() then Err(InvalidArgument) else
      var made :- MakeContentType(value);
      Ok(SetMediaType(made))
    case Some(SpecVersion) => var made :- MakeVersion(value); Ok(Unchanged)
    case Some(Id) => var made :- MakeRequired(value); Ok(SetId(made))
    case Some(Source) => var made :- MakeRequired(value); Ok(SetSource(made))
    case Some(Type) => var made :- MakeRequired(value); Ok(SetKind(made))
    case Some(DataSchema) => var made :- MakeOptional(value); Ok(SetSchema(made))
    case Some(Subject) => var made :- MakeOptional(value); Ok(SetSubject(made))
    case Some(Time) => var parsed :- Timestamp.Parse(value); Ok(SetTime(parsed))
    case _ => var made :- MakeExtensionName(attribute); Ok(SetExtension(made, Text(value)))
  }

  function Changed(x: Builder, c: Change): Builder {
    match c
    case Unchanged => x
    case SetId(text) => x.(id := Some(text))
    case SetSource(text) => x.(source := Some(text))
    case SetKind(text) => x.(kind := Some(text))
    case SetMediaType(text) => x.(rest := x.rest.(datacontenttype := Some(text)))
    case SetSchema(text) => x.(rest := x.rest.(dataschema := Some(text)))
    case SetSubject(text) => x.(rest := x.rest.(subject := Some(text)))
    case SetTime(time) => x.(rest := x.rest.(time := Some(time)))
    case SetExtension(name, value) => x.(rest := x.rest.(extensions := x.rest.extensions[name := value]))
  }

  function ApplyAttribute(b: Binding, x: Builder, attribute: bytes, value: bytes): Result<Builder> {
    var change :- ChangeOf(b, attribute, value);
    Ok(Changed(x, change))
  }

  /** A field without the prefix is passed over. */
  function ReadField(b: Binding, x: Builder, h: Header): Result<Builder> {
    if !CarriesPrefix(b, h.name) then Ok(x) else
    var value :- DecodeValue(b, h.value);
    ApplyAttribute(b, x, AttributeNameOf(b, h.name), value)
  }

  function ReadFields(b: Binding, x: Builder, entries: seq<Header>): Result<Builder>
    decreases |entries|
  {
    if entries == [] then Ok(x) else
    var next :- ReadField(b, x, entries[0]);
    ReadFields(b, next, entries[1..])
  }

  ghost function ReadAttributes(b: Binding, entries: seq<Header>): Result<Builder> {
    if !NoRepeats(b.Rule(), entries) then Err(InvalidArgument) else ReadFields(b, EMPTY_BUILDER, entries)
  }

  /** How MQTT treats a property by its name: passed over, read as an attribute, or checked against the
      content type. */
  datatype FieldKind = Foreign | Attribute | MediaTypeCopy

  function KindOf(b: Binding, name: bytes): FieldKind {
    if !(b.Prefix() <= name) || !ValidName(name[|b.Prefix()|..]) then Foreign
    else if b.Prefix() == [] && name == NameOf(DataContentType) then MediaTypeCopy
    else Attribute
  }

  /** The properties that are attributes; a datacontenttype property must repeat the content type, once. */
  function AttributeFields(b: Binding, declared: Option<bytes>, seen: bool, entries: seq<Header>): Result<seq<Header>>
    decreases |entries|
  {
    if entries == [] then Ok([]) else
    match KindOf(b, entries[0].name)
    case Foreign => AttributeFields(b, declared, seen, entries[1..])
    case Attribute =>
      var rest :- AttributeFields(b, declared, seen, entries[1..]);
      Ok([entries[0]] + rest)
    case MediaTypeCopy =>
      if seen || declared != Some(entries[0].value) then Err(InvalidArgument)
      else AttributeFields(b, declared, true, entries[1..])
  }

  datatype Mode = BinaryMode | Structured | Batched

  predicate StartsWith(b: Binding, text: bytes, prefix: bytes) {
    if b.Rule().CaseSensitive? then prefix <= text else StartsWithIgnoringCase(text, prefix)
  }

  const APPLICATION: bytes := Ascii("application")
  const CLOUDEVENTS: bytes := APPLICATION + ['/' as int] + Ascii("cloudevents")
  const BATCH: bytes := CLOUDEVENTS + Ascii("-batch")

  /** NATS defines no batches: it takes their content type for the structured one. */
  function DetectMode(b: Binding, entries: seq<Header>): Mode {
    var declared := Lookup(b.Rule(), entries, b.ContentTypeHeader());
    if declared.None? then BinaryMode
    else if !b.Nats? && StartsWith(b, declared.value, BATCH) then Batched
    else if StartsWith(b, declared.value, CLOUDEVENTS) then Structured
    else BinaryMode
  }

  /** How a receiver reads bodies: its codec, its reader of structured bodies, and the decode options. */
  datatype Receiver = Receiver(codec: Codec, structured: bytes -> Result<Event>, parseBinaryBody: bool, retainUpTo: nat)

  predicate Retains(r: Receiver, length: nat) {
    r.retainUpTo != 0 && length <= r.retainUpTo
  }

  predicate DeclaredJson(datacontenttype: Option<bytes>) {
    datacontenttype.Some? && IsJsonContentType(datacontenttype.value)
  }

  function ReadBody(body: bytes, datacontenttype: Option<bytes>, r: Receiver): Result<Payload> {
    if body == [] then Ok(NoData)
    else if !DeclaredJson(datacontenttype) then Ok(BinaryData(body))
    else if !r.parseBinaryBody then Ok(JsonText(body))
    else
      var parsed :- r.codec.parse(body);
      Ok(if Retains(r, |body|) then JsonDocument(parsed) else JsonText(body))
  }

  /** How many fields have exactly the name. */
  function CountNamed(entries: seq<Header>, name: bytes): nat {
    if entries == [] then 0 else (if entries[0].name == name then 1 else 0) + CountNamed(entries[1..], name)
  }

  ghost function ReadContext(b: Binding, entries: seq<Header>): Result<Builder> {
    var declared := Lookup(b.Rule(), entries, b.ContentTypeHeader());
    var fields :- if b.OfMqtt() then AttributeFields(b, declared, false, entries) else Ok(entries);
    var builder :- ReadAttributes(b, fields);
    if b.ContentTypeIsAttribute() || declared.None? then Ok(builder) else
    var mediaType :- MakeContentType(declared.value);
    Ok(builder.(rest := builder.rest.(datacontenttype := Some(mediaType))))
  }

  ghost function ReadBinary(b: Binding, entries: seq<Header>, body: bytes, r: Receiver): Result<Event> {
    var builder :- ReadContext(b, entries);
    var payload :- ReadBody(body, builder.rest.datacontenttype, r);
    Build(builder.(rest := builder.rest.(data := payload)))
  }

  /** `from_message` of each binding. */
  ghost function Received(b: Binding, entries: seq<Header>, body: bytes, r: Receiver): Result<Event> {
    if b.OfMqtt() && CountNamed(entries, b.ContentTypeHeader()) > 1 then Err(InvalidArgument)
    else
      match DetectMode(b, entries)
      case Batched => Err(InvalidArgument)
      case Structured => r.structured(body)
      case BinaryMode =>
        if Lookup(b.Rule(), entries, b.Prefix() + NameOf(SpecVersion)).None? then Err(NotACloudEvent)
        else ReadBinary(b, entries, body, r)
  }

  // The methods of the source

  class Message {
    const headerFields: RawHeaders
    var body: bytes

    constructor (headerFields: RawHeaders, body: bytes)
      ensures this.headerFields == headerFields && this.body == body
    {
      this.headerFields := headerFields;
      this.body := body;
    }

    /** `release_bytes`. */
    method ReleaseBytes() returns (taken: bytes)
      modifies this`body
      ensures taken == old(body) && body == []
    {
      taken := body;
      body := [];
    }
  }

  method PutField(b: Binding, into: RawHeaders, name: bytes, value: bytes)
    modifies into
    ensures into.entries == Put(b.Rule(), old(into.entries), name, value)
  {
    if b.Rule().CaseSensitive? {
      into.SetExact(name, value);
    } else {
      into.Set(name, value);
    }
  }

  method PutPair(b: Binding, into: RawHeaders, failure: Option<Errc>, name: bytes, text: bytes) returns (r: Option<Errc>)
    modifies into
    ensures Written(into.entries, r) == PutAttribute(b, Written(old(into.entries), failure), name, text)
  {
    hide EncodeValue, Put;
    r := failure;
    if failure.Some? {
      return;
    }
    var encoded := EncodeValue(b, text);
    if encoded.Err? {
      return Some(encoded.error);
    }
    PutField(b, into, b.Prefix() + name, encoded.value);
  }

  /** `write_attributes`. */
  method WriteAttributesInto(b: Binding, e: Event, into: RawHeaders) returns (failure: Option<Errc>)
    requires RenderableOptions(e.rest)
    modifies into
    ensures Written(into.entries, failure) == WriteAttributes(b, e, old(into.entries))
  {
    hide PutAttribute, EncodeValue, Put, Pairs, RenderableOptions;
    failure := None;
    var pairs := Pairs(e);
    assert pairs[0..] == pairs;
    for i := 0 to |pairs|
      invariant PutAll(b, Written(old(into.entries), None), pairs) == PutAll(b, Written(into.entries, failure), pairs[i..])
    {
      assert pairs[i..][0] == pairs[i] && pairs[i..][1..] == pairs[i + 1..];
      failure := PutPair(b, into, failure, pairs[i].name, pairs[i].value);
    }
    if failure.None? && e.rest.datacontenttype.Some? {
      if b.ContentTypeIsAttribute() {
        failure := PutPair(b, into, None, NameOf(DataContentType), e.rest.datacontenttype.value);
      } else {
        PutField(b, into, b.ContentTypeHeader(), e.rest.datacontenttype.value);
      }
    }
  }

  /** `to_message` in binary mode; on a failure the message is dropped. */
  method ToMessage(b: Binding, e: Event, codec: Codec) returns (failure: Option<Errc>, m: Message)
    requires RenderableOptions(e.rest)
    ensures fresh(m) && fresh(m.headerFields)
    ensures failure == WriteAttributes(b, e, []).failure
    ensures failure.None? ==> m.headerFields.entries == WriteAttributes(b, e, []).entries && m.body == WriteBody(e.rest.data, codec)
  {
    hide WriteAttributes, RenderableOptions;
    var fields := new RawHeaders([]);
    failure := WriteAttributesInto(b, e, fields);
    m := new Message(fields, if failure.None? then WriteBody(e.rest.data, codec) else []);
  }

  /** `read_attributes`. */
  method ReadAttributesFrom(b: Binding, delivered: RawHeaders) returns (r: Result<Builder>)
    ensures r == ReadAttributes(b, delivered.entries)
  {
    hide DecodeValue, ApplyAttribute, CarriesPrefix, Same;
    var repeated := delivered.FirstRepeatedName(b.Rule());
    if repeated.Some? {
      return Err(InvalidArgument);
    }
    var x := EMPTY_BUILDER;
    var entries := delivered.entries;
    assert entries[0..] == entries;
    for i := 0 to |entries|
      invariant ReadFields(b, EMPTY_BUILDER, entries) == ReadFields(b, x, entries[i..])
    {
      assert entries[i..][0] == entries[i] && entries[i..][1..] == entries[i + 1..];
      var next := ReadField(b, x, entries[i]);
      if next.Err? {
        return Err(next.error);
      }
      x := next.value;
    }
    r := Ok(x);
  }

  /** `attribute_fields`. */
  method AttributeFieldsOf(b: Binding, delivered: RawHeaders) returns (failure: Option<Errc>, fields: RawHeaders)
    requires b.OfMqtt()
    ensures fresh(fields)
    ensures var r := AttributeFields(b, Lookup(b.Rule(), delivered.entries, b.ContentTypeHeader()), false, delivered.entries);
            if r.Ok? then failure.None? && fields.entries == r.value else failure == Some(r.error)
  {
    hide KindOf, Lookup;
    fields := new RawHeaders([]);
    var declared := delivered.FindBy(b.Rule(), b.ContentTypeHeader());
    var entries := delivered.entries;
    var seen := false;
    assert entries[0..] == entries;
    Joined([], AttributeFields(b, declared, false, entries));
    for i := 0 to |entries|
      invariant fresh(fields)
      invariant AttributeFields(b, declared, false, entries) == Join(fields.entries, AttributeFields(b, declared, seen, entries[i..]))
    {
      assert entries[i..][0] == entries[i] && entries[i..][1..] == entries[i + 1..];
      match KindOf(b, entries[i].name)
      case Foreign =>
      case Attribute =>
        JoinedOne(fields.entries, entries[i], AttributeFields(b, declared, seen, entries[i + 1..]));
        fields.Add(entries[i].name, entries[i].value);
      case MediaTypeCopy =>
        if seen || declared != Some(entries[i].value) {
          return Some(InvalidArgument), fields;
        }
        seen := true;
    }
    assert fields.entries + [] == fields.entries;
    failure := None;
  }

  ghost function Join(before: seq<Header>, r: Result<seq<Header>>): Result<seq<Header>> {
    if r.Ok? then Ok(before + r.value) else r
  }

  lemma Joined(before: seq<Header>, r: Result<seq<Header>>)
    requires before == []
    ensures Join(before, r) == r
  {
    if r.Ok? {
      assert before + r.value == r.value;
    }
  }

  lemma JoinedOne(before: seq<Header>, h: Header, r: Result<seq<Header>>)
    ensures Join(before, Join([h], r)) == Join(before + [h], r)
  {
    if r.Ok? {
      assert before + ([h] + r.value) == before + [h] + r.value;
    }
  }

  method CountExactly(delivered: RawHeaders, name: bytes) returns (n: nat)
    ensures n == CountNamed(delivered.entries, name)
  {
    n := 0;
    var entries := delivered.entries;
    assert entries[0..] == entries;
    for i := 0 to |entries|
      invariant CountNamed(entries, name) == n + CountNamed(entries[i..], name)
    {
      assert entries[i..][0] == entries[i] && entries[i..][1..] == entries[i + 1..];
      n := n + if entries[i].name == name then 1 else 0;
    }
  }

  /** What the fields and the declared media type add up to, or the first of them that is refused. */
  method ReadContextFrom(b: Binding, delivered: RawHeaders) returns (r: Result<Builder>)
    ensures r == ReadContext(b, delivered.entries)
  {
    hide ReadAttributes, AttributeFields, Lookup, MakeContentType;
    var fields := delivered;
    if b.OfMqtt() {
      var failure;
      failure, fields := AttributeFieldsOf(b, delivered);
      if failure.Some? {
        return Err(failure.value);
      }
    }
    r := ReadAttributesFrom(b, fields);
    if r.Err? || b.ContentTypeIsAttribute() {
      return;
    }
    var declared := delivered.FindBy(b.Rule(), b.ContentTypeHeader());
    if declared.Some? {
      var mediaType := MakeContentType(declared.value);
      if mediaType.Err? {
        return Err(mediaType.error);
      }
      r := Ok(r.value.(rest := r.value.rest.(datacontenttype := Some(mediaType.value))));
    }
  }

  /** What every receiver settles before it reads the attributes: the answer, or None for a binary-mode
      message that is to be read. */
  ghost function Early(b: Binding, entries: seq<Header>, body: bytes, r: Receiver): Option<Result<Event>> {
    if b.OfMqtt() && CountNamed(entries, b.ContentTypeHeader()) > 1 then Some(Err(InvalidArgument))
    else
      match DetectMode(b, entries)
      case Batched => Some(Err(InvalidArgument))
      case Structured => Some(r.structured(body))
      case BinaryMode =>
        if Lookup(b.Rule(), entries, b.Prefix() + NameOf(SpecVersion)).None? then Some(Err(NotACloudEvent)) else None
  }

  method Settle(b: Binding, m: Message, r: Receiver) returns (early: Option<Result<Event>>)
    ensures early == Early(b, m.headerFields.entries, m.body, r)
  {
    hide DetectMode, Lookup;
    if b.OfMqtt() {
      var n := CountExactly(m.headerFields, b.ContentTypeHeader());
      if n > 1 {
        return Some(Err(InvalidArgument));
      }
    }
    match DetectMode(b, m.headerFields.entries)
    case Batched => early := Some(Err(InvalidArgument));
    case Structured => early := Some(r.structured(m.body));
    case BinaryMode =>
      var version := m.headerFields.FindBy(b.Rule(), b.Prefix() + NameOf(SpecVersion));
      early := if version.None? then Some(Err(NotACloudEvent)) else None;
  }

  /** `from_message`. */
  method FromMessage(b: Binding, m: Message, receiver: Receiver) returns (r: Result<Event>)
    ensures r == Received(b, m.headerFields.entries, m.body, receiver)
  {
    hide ReadContext, ReadBody, DetectMode, Lookup, CountNamed;
    var early := Settle(b, m, receiver);
    if early.Some? {
      return early.value;
    }
    var builder := ReadContextFrom(b, m.headerFields);
    if builder.Err? {
      return Err(builder.error);
    }
    var payload := ReadBody(m.body, builder.value.rest.datacontenttype, receiver);
    if payload.Err? {
      return Err(payload.error);
    }
    r := Build(builder.value.(rest := builder.value.rest.(data := payload.value)));
  }

  predicate MovesBody(body: bytes, datacontenttype: Option<bytes>) {
    body != [] && !DeclaredJson(datacontenttype)
  }

  /** `read_body_moving`: what `read_body` reads, the body emptied exactly when its octets are taken. */
  method ReadBodyMoving(m: Message, datacontenttype: Option<bytes>, receiver: Receiver) returns (r: Result<Payload>)
    modifies m`body
    ensures r == ReadBody(old(m.body), datacontenttype, receiver)
    ensures m.body == if r.Ok? && r.value.BinaryData? then [] else old(m.body)
  {
    hide DeclaredJson;
    if !MovesBody(m.body, datacontenttype) {
      return ReadBody(m.body, datacontenttype, receiver);
    }
    var taken := m.ReleaseBytes();
    r := Ok(BinaryData(taken));
  }

  /** `build_taking_body`: a refusal leaves the body as it was. */
  method BuildTakingBody(x: Builder, m: Message, receiver: Receiver) returns (r: Result<Event>)
    requires x.rest.data == NoData
    modifies m`body
    ensures var payload := ReadBody(old(m.body), x.rest.datacontenttype, receiver);
            r == if payload.Err? then Err(payload.error) else Build(x.(rest := x.rest.(data := payload.value)))
    ensures m.body == if r.Ok? && MovesBody(old(m.body), x.rest.datacontenttype) then [] else old(m.body)
  {
    hide DeclaredJson;
    if MovesBody(m.body, x.rest.datacontenttype) {
      var built := Build(x.(rest := x.rest.(datacontenttype := None)));
      if built.Err? {
        return built;
      }
      var taken := m.ReleaseBytes();
      return Ok(built.value.(rest := built.value.rest.(data := BinaryData(taken), datacontenttype := x.rest.datacontenttype)));
    }
    var payload := ReadBody(m.body, x.rest.datacontenttype, receiver);
    if payload.Err? {
      return Err(payload.error);
    }
    r := Build(x.(rest := x.rest.(data := payload.value)));
  }

  /** `from_message_moving`, which HTTP, Kafka and NATS have: the answer of `from_message`; the body is
      emptied exactly when the call succeeds on a binary-mode message whose body is not empty and whose
      media type is not JSON. The header fields are never touched. */
  method FromMessageMoving(b: Binding, m: Message, receiver: Receiver) returns (r: Result<Event>)
    requires !b.OfMqtt()
    modifies m`body
    ensures r == Received(b, m.headerFields.entries, old(m.body), receiver)
    ensures m.body == if r.Ok? && DetectMode(b, m.headerFields.entries).BinaryMode?
                         && MovesBody(old(m.body), r.value.rest.datacontenttype)
                      then [] else old(m.body)
  {
    hide ReadContext, ReadBody, DetectMode, Lookup, MovesBody;
    var early := Settle(b, m, receiver);
    if early.Some? {
      return early.value;
    }
    var x := ReadContextFrom(b, m.headerFields);
    if x.Err? {
      return Err(x.error);
    }
    NoDataYet(b, m.headerFields.entries);
    r := BuildTakingBody(x.value, m, receiver);
  }

  lemma {:induction false} FieldsSetNoData(b: Binding, x: Builder, entries: seq<Header>)
    requires x.rest.data == NoData && ReadFields(b, x, entries).Ok?
    ensures ReadFields(b, x, entries).value.rest.data == NoData
    decreases |entries|
  {
    hide DecodeValue, ChangeOf, CarriesPrefix;
    if entries != [] {
      FieldsSetNoData(b, ReadField(b, x, entries[0]).value, entries[1..]);
    }
  }

  lemma NoDataYet(b: Binding, entries: seq<Header>)
    requires ReadContext(b, entries).Ok?
    ensures ReadContext(b, entries).value.rest.data == NoData
  {
    hide ReadFields, AttributeFields, Lookup, MakeContentType, NoRepeats;
    var declared := Lookup(b.Rule(), entries, b.ContentTypeHeader());
    var fields := if b.OfMqtt() then AttributeFields(b, declared, false, entries).value else entries;
    FieldsSetNoData(b, EMPTY_BUILDER, fields);
  }
}
