/** What the Protocol Buffers writer writes, told as the fields on the wire
    (include/cloudevents/format/protobuf_format.hpp). */
module ProtobufWrites {
  import opened Wrappers
  import opened Wire
  import opened Attributes
  import opened JsonDom
  import opened ProtobufDecode
  import opened ProtobufEncode
  import opened ProtobufReads
  import Order
  import ProtobufLaws
  import Timestamp
  import WireReads

  /** The octets are whole fields, these ones. */
  predicate Are(encoded: bytes, fields: seq<Field>) {
    FieldsOf(encoded) == Fields(fields, true)
  }

  lemma BothAre(a: bytes, b: bytes, fields: seq<Field>, more: seq<Field>)
    requires Are(a, fields) && Are(b, more)
    ensures Are(a + b, fields + more)
  {
    hide FieldsOf;
    WireReads.FieldsJoin(a, b);
  }

  lemma NothingIs()
    ensures Are([], [])
  {
  }

  lemma OneIs(number: fieldNumber, body: bytes)
    requires |body| < 0x1_0000_0000_0000_0000
    ensures Are(PutField(number, body), [LengthField(number, body)])
  {
    hide PutField, FieldsOf;
    OneWholeField(number, body);
  }

  lemma VarintIs(number: fieldNumber, value: uint64)
    ensures Are(PutVarintField(number, value), [VarintField(number, value)])
  {
    hide PutVarintField, ReadField;
    FieldOfPutVarint(number, value, []);
    VarintNotEmpty(number, value);
    assert PutVarintField(number, value) + [] == PutVarintField(number, value);
    assert FieldsOf([]) == Fields([], true);
    assert [VarintField(number, value)] + [] == [VarintField(number, value)];
  }

  lemma VarintNotEmpty(number: fieldNumber, value: uint64)
    ensures PutVarintField(number, value) != []
  {
    assert PutTag(number, 0) != [];
  }

  // Values

  /** The one field of a value. */
  function ValueField(v: AttributeValue): Field {
    match v
    case Bool(b) => VarintField(1, if b then 1 else 0)
    case Integer(i) => VarintField(2, if i < 0 then i + 0x1_0000_0000_0000_0000 else i)
    case Text(text) => LengthField(3, text)
    case Binary(octets) => LengthField(4, octets)
    case Uri(text) => LengthField(5, text)
    case UriRef(text) => LengthField(6, text)
    case Instant(t) => LengthField(7, InstantBody(t))
  }

  lemma UnsignedIs(i: int)
    requires -0x8000_0000_0000_0000 <= i < 0x8000_0000_0000_0000
    ensures ToUnsigned(i) == if i < 0 then i + 0x1_0000_0000_0000_0000 else i
  {
  }

  lemma ValueWritten(v: AttributeValue)
    requires |EncodeValue(v)| < 0x1_0000_0000_0000_0000
    ensures Are(EncodeValue(v), [ValueField(v)])
  {
    hide Are, PutField, PutVarintField, InstantBody, ToUnsigned;
    match v
    case Bool(b) => VarintIs(1, if b then 1 else 0);
    case Integer(i) =>
      UnsignedIs(i);
      VarintIs(2, ToUnsigned(i));
    case Text(text) => FitsIn(3, text);
    case Binary(octets) => FitsIn(4, octets);
    case Uri(text) => FitsIn(5, text);
    case UriRef(text) => FitsIn(6, text);
    case Instant(t) => FitsIn(7, InstantBody(t));
  }

  lemma FitsIn(number: fieldNumber, body: bytes)
    requires |PutField(number, body)| < 0x1_0000_0000_0000_0000
    ensures Are(PutField(number, body), [LengthField(number, body)])
  {
    hide PutField, Are;
    ProtobufLaws.FieldNotEmpty(number, body);
    OneIs(number, body);
  }

  /** An instant is its whole seconds in field 1 and what is left of it in nanoseconds in field 2, neither
      written when it is zero. */
  lemma InstantWritten(t: Timestamp.Timestamp)
    ensures var seconds, nanos := t.utc / 1_000_000_000, t.utc % 1_000_000_000;
            Are(InstantBody(t),
                (if seconds != 0 then [VarintField(1, ToUnsigned(seconds))] else [])
                + (if nanos != 0 then [VarintField(2, nanos)] else []))
  {
    hide Are, PutVarintField, ToUnsigned;
    var seconds, nanos := t.utc / 1_000_000_000, t.utc % 1_000_000_000;
    NothingIs();
    UnsignedIs(nanos);
    VarintIs(1, ToUnsigned(seconds));
    VarintIs(2, ToUnsigned(nanos));
    BothAre(if seconds != 0 then PutVarintField(1, ToUnsigned(seconds)) else [],
            if nanos != 0 then PutVarintField(2, ToUnsigned(nanos)) else [],
            if seconds != 0 then [VarintField(1, ToUnsigned(seconds))] else [],
            if nanos != 0 then [VarintField(2, nanos)] else []);
  }

  // Entries and data

  function EntryField(name: bytes, v: AttributeValue): Field {
    LengthField(5, ProtobufLaws.EntryBody(name, v))
  }

  function EntryFields(names: seq<bytes>, values: map<bytes, AttributeValue>): seq<Field>
    requires forall k :: k in names ==> k in values
  {
    if names == [] then [] else [EntryField(names[0], values[names[0]])] + EntryFields(names[1..], values)
  }

  /** An entry is its name in field 1 and its value in field 2. */
  lemma EntryWritten(name: bytes, v: AttributeValue)
    requires |ProtobufLaws.EntryBody(name, v)| < 0x1_0000_0000_0000_0000
    ensures Are(ProtobufLaws.EntryBody(name, v), [LengthField(1, name), LengthField(2, EncodeValue(v))])
  {
    hide Are, PutField, EncodeValue;
    FitsIn(1, name);
    FitsIn(2, EncodeValue(v));
    BothAre(PutField(1, name), PutField(2, EncodeValue(v)), [LengthField(1, name)], [LengthField(2, EncodeValue(v))]);
    assert [LengthField(1, name)] + [LengthField(2, EncodeValue(v))] == [LengthField(1, name), LengthField(2, EncodeValue(v))];
  }

  lemma {:induction false} EntriesWritten(names: seq<bytes>, values: map<bytes, AttributeValue>)
    requires (forall k :: k in names ==> k in values) && |PutEntries(names, values)| < 0x1_0000_0000_0000_0000
    ensures Are(PutEntries(names, values), EntryFields(names, values))
    decreases |names|
  {
    hide Are, PutField, EncodeValue;
    if names == [] {
      NothingIs();
    } else {
      var name := names[0];
      FitsIn(5, ProtobufLaws.EntryBody(name, values[name]));
      EntriesWritten(names[1..], values);
      BothAre(PutEntry(name, EncodeValue(values[name])), PutEntries(names[1..], values),
              [EntryField(name, values[name])], EntryFields(names[1..], values));
    }
  }

  /** The field the data goes to: 8 for octets sent as an Any, 6 for other octets, 7 for texts. */
  function DataField(typeUrl: Option<bytes>, data: Payload, codec: Codec): seq<Field> {
    match data
    case NoData => []
    case BinaryData(octets) => [if typeUrl.Some? then LengthField(8, AnyBody(typeUrl.value, octets)) else LengthField(6, octets)]
    case TextData(text) => [LengthField(7, text)]
    case JsonText(raw) => [LengthField(7, raw)]
    case JsonDocument(document) => [LengthField(7, codec.dump(document))]
  }

  lemma DataWritten(typeUrl: Option<bytes>, data: Payload, codec: Codec)
    requires |PutData(typeUrl, data, codec)| < 0x1_0000_0000_0000_0000
    ensures Are(PutData(typeUrl, data, codec), DataField(typeUrl, data, codec))
  {
    hide Are, PutField, AnyBody;
    match data
    case NoData => NothingIs();
    case BinaryData(octets) =>
      if typeUrl.Some? {
        FitsIn(8, AnyBody(typeUrl.value, octets));
      } else {
        FitsIn(6, octets);
      }
    case TextData(text) => FitsIn(7, text);
    case JsonText(raw) => FitsIn(7, raw);
    case JsonDocument(document) => FitsIn(7, codec.dump(document));
  }

  /** An Any is its type URL in field 1, if there is one to write, and its value in field 2. */
  lemma AnyWritten(typeUrl: bytes, value: bytes)
    requires |AnyBody(typeUrl, value)| < 0x1_0000_0000_0000_0000
    ensures Are(AnyBody(typeUrl, value), (if typeUrl != [] then [LengthField(1, typeUrl)] else []) + [LengthField(2, value)])
  {
    hide Are, PutField;
    NothingIs();
    FitsIn(2, value);
    if typeUrl != [] {
      FitsIn(1, typeUrl);
    }
    BothAre(if typeUrl != [] then PutField(1, typeUrl) else [], PutField(2, value),
            if typeUrl != [] then [LengthField(1, typeUrl)] else [], [LengthField(2, value)]);
  }

  // Events

  function RequiredFields(e: Event): seq<Field> {
    [LengthField(1, e.id), LengthField(2, e.source), LengthField(3, Ascii("1.0")), LengthField(4, e.kind)]
  }

  lemma RequiredWritten(e: Event)
    requires |PutRequired(e)| < 0x1_0000_0000_0000_0000
    ensures Are(PutRequired(e), RequiredFields(e))
  {
    hide Are, PutField, VERSION;
    var id, source, version, kind := LengthField(1, e.id), LengthField(2, e.source), LengthField(3, VERSION), LengthField(4, e.kind);
    FitsIn(1, e.id);
    FitsIn(2, e.source);
    FitsIn(3, VERSION);
    FitsIn(4, e.kind);
    BothAre(PutField(1, e.id), PutField(2, e.source), [id], [source]);
    BothAre(PutField(1, e.id) + PutField(2, e.source), PutField(3, VERSION), [id] + [source], [version]);
    BothAre(PutField(1, e.id) + PutField(2, e.source) + PutField(3, VERSION), PutField(4, e.kind), [id] + [source] + [version], [kind]);
    VersionIs();
    assert [id] + [source] + [version] + [kind] == RequiredFields(e);
  }

  lemma VersionIs()
    ensures VERSION == Ascii("1.0")
  {
  }

  /** The fields of an encoding: the id, the source, the version and the type, one entry for each attribute in
      the order of their names, and the data. */
  lemma EventWritten(e: Event, typeUrl: Option<bytes>, codec: Codec)
    requires |EncodeWith(e, typeUrl, codec)| < 0x1_0000_0000_0000_0000
    ensures var values := ValuesOf(e.rest);
            Are(EncodeWith(e, typeUrl, codec),
                RequiredFields(e) + EntryFields(Order.Sorted(values.Keys), values) + DataField(typeUrl, e.rest.data, codec))
  {
    hide Are, PutRequired, PutEntries, PutData, ValuesOf, Order.Sorted, RequiredFields, EntryFields, DataField;
    var values := ValuesOf(e.rest);
    var names := Order.Sorted(values.Keys);
    RequiredWritten(e);
    EntriesWritten(names, values);
    DataWritten(typeUrl, e.rest.data, codec);
    BothAre(PutRequired(e), PutEntries(names, values), RequiredFields(e), EntryFields(names, values));
    BothAre(PutRequired(e) + PutEntries(names, values), PutData(typeUrl, e.rest.data, codec),
            RequiredFields(e) + EntryFields(names, values), DataField(typeUrl, e.rest.data, codec));
  }

  /** Octets are sent as an Any exactly when the event is declared to be application/protobuf, in whatever
      case, and has a schema that is a URI reference of the format; its type URL is the schema. */
  predicate GoesAsAny(e: Event) {
    && e.rest.data.BinaryData?
    && e.rest.datacontenttype.Some? && EqualIgnoringCase(e.rest.datacontenttype.value, Ascii("application/protobuf"))
    && e.rest.dataschema.Some? && ValidUriReference(e.rest.dataschema.value)
  }

  lemma DataGoesTo(e: Event, codec: Codec)
    requires |Encode(e, codec)| < 0x1_0000_0000_0000_0000
    ensures LastData(FieldsOf(Encode(e, codec)).read)
            == match e.rest.data
               case NoData => None
               case BinaryData(octets) =>
                 Some(if GoesAsAny(e) then LengthField(8, AnyBody(e.rest.dataschema.value, octets)) else LengthField(6, octets))
               case TextData(text) => Some(LengthField(7, text))
               case JsonText(raw) => Some(LengthField(7, raw))
               case JsonDocument(document) => Some(LengthField(7, codec.dump(document)))
  {
    hide EncodeWith, FieldsOf, ValuesOf, Order.Sorted, RequiredFields, EntryFields, LastData, AnyBody, ValidUriReference, EqualIgnoringCase,
      Ascii;
    var values := ValuesOf(e.rest);
    var front := RequiredFields(e) + EntryFields(Order.Sorted(values.Keys), values);
    EventWritten(e, ProtoTypeUrl(e), codec);
    NoDataInFront(e, Order.Sorted(values.Keys), values);
    var data := DataField(ProtoTypeUrl(e), e.rest.data, codec);
    if data == [] {
      assert front + data == front;
    } else {
      LatestData(front, data[0]);
      assert front + data == front + [data[0]];
    }
  }

  lemma NoDataInFront(e: Event, names: seq<bytes>, values: map<bytes, AttributeValue>)
    requires forall k :: k in names ==> k in values
    ensures LastData(RequiredFields(e) + EntryFields(names, values)) == None
  {
    hide LastData, EntryFields, Ascii;
    EntriesAreFive(names, values);
    var front := RequiredFields(e) + EntryFields(names, values);
    forall i | 0 <= i < |front|
      ensures front[i].number <= 5
    {
      if i >= 4 {
        assert front[i] == EntryFields(names, values)[i - 4];
      }
    }
    NoneBelowSix(front);
  }

  lemma {:induction false} EntriesAreFive(names: seq<bytes>, values: map<bytes, AttributeValue>)
    requires forall k :: k in names ==> k in values
    ensures forall i :: 0 <= i < |EntryFields(names, values)| ==> EntryFields(names, values)[i].number == 5
  {
    hide EncodeValue;
    if names != [] {
      EntriesAreFive(names[1..], values);
    }
  }

  lemma {:induction false} NoneBelowSix(fields: seq<Field>)
    requires forall i :: 0 <= i < |fields| ==> fields[i].number <= 5
    ensures LastData(fields) == None
  {
    if fields != [] {
      NoneBelowSix(fields[..|fields| - 1]);
    }
  }

  /** A caller's own type URL is taken for octets alone, and only if it is a URI reference of the format. */
  lemma AsAnyExactly(e: Event, typeUrl: bytes, codec: Codec)
    ensures var r := EncodeAsAny(e, typeUrl, codec);
            && (r.Ok? <==> ValidUriReference(typeUrl) && e.rest.data.BinaryData?)
            && (r.Err? ==> r.error == if ValidUriReference(typeUrl) then TypeMismatch else ParseError)
            && (r.Ok? && |r.value| < 0x1_0000_0000_0000_0000
                ==> LastData(FieldsOf(r.value).read) == Some(LengthField(8, AnyBody(typeUrl, e.rest.data.octets))))
  {
    hide EncodeWith, FieldsOf, ValuesOf, Order.Sorted, RequiredFields, EntryFields, LastData, AnyBody, ValidUriReference;
    var r := EncodeAsAny(e, typeUrl, codec);
    if r.Ok? && |r.value| < 0x1_0000_0000_0000_0000 {
      var values := ValuesOf(e.rest);
      var front := RequiredFields(e) + EntryFields(Order.Sorted(values.Keys), values);
      EventWritten(e, Some(typeUrl), codec);
      NoDataInFront(e, Order.Sorted(values.Keys), values);
      LatestData(front, LengthField(8, AnyBody(typeUrl, e.rest.data.octets)));
    }
  }
}
