/** Writing a CloudEvent in its Protocol Buffers encoding
    (include/cloudevents/format/protobuf_format.hpp). */
module ProtobufEncode {
  import opened Wrappers
  import opened Arithmetic
  import opened Wire
  import opened Attributes
  import opened JsonDom
  import opened ProtobufDecode
  import Timestamp
  import Order

  /** `static_cast<std::uint64_t>` of a signed value. */
  function ToUnsigned(i: int): uint64 {
    i % WORD
  }

  function InstantBody(t: Timestamp.Timestamp): bytes {
    var seconds, nanos := t.utc / Timestamp.NANOS, t.utc % Timestamp.NANOS;
    (if seconds != 0 then PutVarintField(1, ToUnsigned(seconds)) else [])
    + (if nanos != 0 then PutVarintField(2, ToUnsigned(nanos)) else [])
  }

  /** One arm of a CloudEventAttributeValue. */
  function EncodeValue(v: AttributeValue): bytes {
    match v
    case Bool(b) => PutVarintField(1, if b then 1 else 0)
    case Integer(i) => PutVarintField(2, ToUnsigned(i))
    case Text(text) => PutField(3, text)
    case Binary(octets) => PutField(4, octets)
    case Uri(text) => PutField(5, text)
    case UriRef(text) => PutField(6, text)
    case Instant(t) => PutField(7, InstantBody(t))
  }

  /** What goes into the attribute map; a context attribute is not replaced by an extension of its name. */
  function ContextValues(o: Options): map<bytes, AttributeValue> {
    (if o.datacontenttype.Some? then map[NameOf(DataContentType) := Text(o.datacontenttype.value)] else map[])
    + (if o.dataschema.Some? then map[NameOf(DataSchema) := Uri(o.dataschema.value)] else map[])
    + (if o.subject.Some? then map[NameOf(Subject) := Text(o.subject.value)] else map[])
    + (if o.time.Some? then map[NameOf(Attributes.Time) := Instant(o.time.value)] else map[])
  }

  function ValuesOf(o: Options): map<bytes, AttributeValue> {
    o.extensions + ContextValues(o)
  }

  function PutEntry(name: bytes, value: bytes): bytes {
    PutField(5, PutField(1, name) + PutField(2, value))
  }

  function PutEntries(names: seq<bytes>, values: map<bytes, AttributeValue>): bytes
    requires forall k :: k in names ==> k in values
  {
    if names == [] then [] else PutEntry(names[0], EncodeValue(values[names[0]])) + PutEntries(names[1..], values)
  }

  /** Whether the writer wraps the payload in an Any, and under which type URL: the payload must be declared
      to be Protocol Buffers and its schema must be one that a reader accepts there. */
  function ProtoTypeUrl(e: Event): Option<bytes> {
    if && e.rest.datacontenttype.Some? && e.rest.dataschema.Some?
       && EqualIgnoringCase(e.rest.datacontenttype.value, ProtobufMediaType())
       && ValidUriReference(e.rest.dataschema.value)
    then e.rest.dataschema else None
  }

  function AnyBody(typeUrl: bytes, value: bytes): bytes {
    (if typeUrl != [] then PutField(1, typeUrl) else []) + PutField(2, value)
  }

  function PutData(typeUrl: Option<bytes>, data: Payload, codec: Codec): bytes {
    match data
    case NoData => []
    case TextData(text) => PutField(7, text)
    case BinaryData(octets) => if typeUrl.Some? then PutField(8, AnyBody(typeUrl.value, octets)) else PutField(6, octets)
    case JsonText(raw) => PutField(7, raw)
    case JsonDocument(document) => PutField(7, codec.dump(document))
  }

  function PutRequired(e: Event): bytes {
    PutField(1, e.id) + PutField(2, e.source) + PutField(3, VERSION) + PutField(4, e.kind)
  }

  function EncodeWith(e: Event, typeUrl: Option<bytes>, codec: Codec): bytes {
    PutRequired(e)
    + PutEntries(Order.Sorted(ValuesOf(e.rest).Keys), ValuesOf(e.rest))
    + PutData(typeUrl, e.rest.data, codec)
  }

  function Encode(e: Event, codec: Codec): bytes {
    EncodeWith(e, ProtoTypeUrl(e), codec)
  }

  function EncodeAsAny(e: Event, typeUrl: bytes, codec: Codec): Result<bytes> {
    if !ValidUriReference(typeUrl) then Err(ParseError)
    else if !e.rest.data.BinaryData? then Err(TypeMismatch)
    else Ok(EncodeWith(e, Some(typeUrl), codec))
  }

  function EncodeBatch(events: seq<Event>, codec: Codec): bytes {
    if events == [] then [] else PutField(1, Encode(events[0], codec)) + EncodeBatch(events[1..], codec)
  }

  // The loops of the source

  method EncodeEvent(e: Event, typeUrl: Option<bytes>, codec: Codec) returns (out: bytes)
    ensures out == EncodeWith(e, typeUrl, codec)
  {
    hide ValuesOf, PutRequired, PutEntry, PutData, EncodeValue, Order.Sorted;
    out := PutRequired(e);
    var values := ValuesOf(e.rest);
    var names := Order.Sorted(values.Keys);
    for i := 0 to |names|
      invariant out + PutEntries(names[i..], values) == PutRequired(e) + PutEntries(names, values)
    {
      ghost var rest := names[i..];
      assert rest[0] == names[i] && rest[1..] == names[i + 1..];
      ghost var before := out;
      assert names[i] in names;
      out := out + PutEntry(names[i], EncodeValue(values[names[i]]));
      assert out + PutEntries(rest[1..], values) == before + PutEntries(rest, values);
    }
    assert PutEntries(names[|names|..], values) == [];
    out := out + PutData(typeUrl, e.rest.data, codec);
  }

  method EncodeEvents(events: seq<Event>, codec: Codec) returns (out: bytes)
    ensures out == EncodeBatch(events, codec)
  {
    hide Encode, EncodeBatch, PutField;
    out := [];
    assert events[0..] == events;
    for i := 0 to |events|
      invariant out + EncodeBatch(events[i..], codec) == EncodeBatch(events, codec)
    {
      BatchUnfolds(events[i..], codec, out);
      assert events[i..][1..] == events[i + 1..];
      out := out + PutField(1, Encode(events[i], codec));
    }
    BatchUnfolds(events[|events|..], codec, out);
  }

  lemma BatchUnfolds(events: seq<Event>, codec: Codec, before: bytes)
    ensures before + EncodeBatch(events, codec)
            == if events == [] then before
               else before + PutField(1, Encode(events[0], codec)) + EncodeBatch(events[1..], codec)
  {
    hide Encode, PutField;
  }
}
