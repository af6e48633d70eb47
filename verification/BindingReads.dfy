/** What every accepted message tells: each of its attribute fields is in the event as it stands, structured
    messages are told from binary ones, and a binding writes only values its transport can carry. */
module BindingReads {
  import opened Wrappers
  import opened Attributes
  import opened Headers
  import opened Bindings
  import opened BindingOrder
  import Percent
  import Utf8

  // Fields

  /** The event holds what the change brought. */
  predicate Reflects(x: Builder, c: Change) {
    match c
    case Unchanged => true
    case SetId(text) => x.id == Some(text)
    case SetSource(text) => x.source == Some(text)
    case SetKind(text) => x.kind == Some(text)
    case SetMediaType(text) => x.rest.datacontenttype == Some(text)
    case SetSchema(text) => x.rest.dataschema == Some(text)
    case SetSubject(text) => x.rest.subject == Some(text)
    case SetTime(time) => x.rest.time == Some(time)
    case SetExtension(name, value) => name in x.rest.extensions && x.rest.extensions[name] == value
  }

  lemma ChangedReflects(x: Builder, c: Change, d: Change)
    ensures Reflects(Changed(x, c), c)
    ensures Apart(c, d) && Reflects(x, c) ==> Reflects(Changed(x, d), c)
  {
  }

  lemma {:induction false} StaysReflected(b: Binding, x: Builder, entries: seq<Header>, h: Header)
    requires ReadFields(b, x, entries).Ok? && FieldChange(b, h).Ok? && Reflects(x, FieldChange(b, h).value)
    requires forall g :: g in entries ==> !Same(b.Rule(), h.name, g.name)
    ensures Reflects(ReadFields(b, x, entries).value, FieldChange(b, h).value)
    decreases |entries|
  {
    hide FieldChange, Same, Reflects, Changed, ReadField;
    if entries != [] {
      var g := entries[0];
      ReadFieldIsChange(b, x, g);
      FieldsAreApart(b, h, g);
      ChangedReflects(x, FieldChange(b, h).value, FieldChange(b, g).value);
      StaysReflected(b, ReadField(b, x, g).value, entries[1..], h);
    }
  }

  /** Every field of an accepted list is in the event. */
  lemma {:induction false} EveryFieldIsKept(b: Binding, x: Builder, entries: seq<Header>, h: Header)
    requires NoRepeats(b.Rule(), entries) && ReadFields(b, x, entries).Ok? && h in entries
    ensures FieldChange(b, h).Ok? && Reflects(ReadFields(b, x, entries).value, FieldChange(b, h).value)
    decreases |entries|
  {
    hide FieldChange, Same, Reflects, Changed, ReadField, NoRepeats;
    var g, rest := entries[0], entries[1..];
    assert entries == [g] + rest;
    NoRepeatsTail(b.Rule(), g, rest);
    ReadFieldIsChange(b, x, g);
    if h == g {
      ChangedReflects(x, FieldChange(b, h).value, Unchanged);
      StaysReflected(b, ReadField(b, x, g).value, rest, h);
    } else {
      EveryFieldIsKept(b, ReadField(b, x, g).value, rest, h);
    }
  }

  /** What an attribute field of an accepted list says: its text is the event's, its version 1.0. */
  lemma FieldIsAttribute(b: Binding, entries: seq<Header>, h: Header)
    requires ReadAttributes(b, entries).Ok? && h in entries && CarriesPrefix(b, h.name)
    ensures DecodeValue(b, h.value).Ok?
    ensures var x, name, value := ReadAttributes(b, entries).value, AttributeNameOf(b, h.name), DecodeValue(b, h.value).value;
            match ReservedAs(name)
            case Some(SpecVersion) => value == VERSION
            case Some(Id) => x.id == Some(value)
            case Some(Source) => x.source == Some(value)
            case Some(Type) => x.kind == Some(value)
            case Some(DataContentType) => b.Nats? && x.rest.datacontenttype == Some(value)
            case Some(DataSchema) => x.rest.dataschema == Some(value)
            case Some(Subject) => x.rest.subject == Some(value)
            case Some(Time) => Timestamp.Parse(value).Ok? && x.rest.time == Some(Timestamp.Parse(value).value)
            case Some(_) => false
            case None => ValidName(name) && name in x.rest.extensions && x.rest.extensions[name] == Text(value)
  {
    hide ReadFields, DecodeValue, AttributeNameOf, EqualIgnoringCase, Same, MakeRequired, MakeOptional, MakeContentType, ReservedAs,
      ValidName, VERSION, Timestamp.Parse, NameOf;
    EveryFieldIsKept(b, EMPTY_BUILDER, entries, h);
    var value := DecodeValue(b, h.value).value;
    MadeIsItself(value);
    ReservedAsName(Data);
    NameOfReserved(AttributeNameOf(b, h.name));
    DataNamesAreRefused(AttributeNameOf(b, h.name));
  }

  lemma DataNamesAreRefused(name: bytes)
    ensures ReservedAs(name) == Some(Data) || ReservedAs(name) == Some(DataBase64) ==> MakeExtensionName(name).Err?
  {
    hide ReservedAs, ValidName;
  }

  // Structured messages

  const JSON: bytes := CLOUDEVENTS + Ascii("+json")
  const JSON_BATCH: bytes := BATCH + Ascii("+json")

  lemma StartsWithLiteral(b: Binding, text: bytes, prefix: bytes)
    requires prefix <= text
    ensures StartsWith(b, text, prefix)
  {
    hide Lower;
    assert text[..|prefix|] == prefix;
  }

  lemma JsonStarts(b: Binding)
    ensures StartsWith(b, JSON, CLOUDEVENTS) && !StartsWith(b, JSON, BATCH)
    ensures StartsWith(b, JSON_BATCH, CLOUDEVENTS) && StartsWith(b, JSON_BATCH, BATCH)
  {
    StartsWithLiteral(b, JSON, CLOUDEVENTS);
    StartsWithLiteral(b, JSON_BATCH, CLOUDEVENTS);
    StartsWithLiteral(b, JSON_BATCH, BATCH);
    assert |JSON| < |BATCH|;
  }

  /** The one field of a structured message, under the binding's spelling. */
  function ContentTypeField(b: Binding, mediaType: bytes): seq<Header> {
    Put(b.Rule(), [], b.ContentTypeHeader(), mediaType)
  }

  lemma DeclaredOf(b: Binding, mediaType: bytes)
    ensures Lookup(b.Rule(), ContentTypeField(b, mediaType), b.ContentTypeHeader()) == Some(mediaType)
    ensures CountNamed(ContentTypeField(b, mediaType), b.ContentTypeHeader()) == 1
  {
    hide EqualIgnoringCase;
    SameIsEquivalence(b.Rule(), b.ContentTypeHeader(), [], []);
    var field := ContentTypeField(b, mediaType);
    assert field[1..] == [];
  }

  /** Every binding hands the body of the structured message it writes to the reader of structured bodies. */
  lemma StructuredIsReceived(b: Binding, body: bytes, r: Receiver)
    ensures Received(b, ContentTypeField(b, JSON), body, r) == r.structured(body)
  {
    hide ContentTypeField, StartsWith, Lookup, CountNamed, ReadBinary, NameOf;
    DeclaredOf(b, JSON);
    JsonStarts(b);
  }

  /** A batch is refused as a single event, except by NATS, which takes it for a structured message. */
  lemma BatchIsRefused(b: Binding, body: bytes, r: Receiver)
    ensures Received(b, ContentTypeField(b, JSON_BATCH), body, r) == if b.Nats? then r.structured(body) else Err(InvalidArgument)
  {
    hide ContentTypeField, StartsWith, Lookup, CountNamed, ReadBinary, NameOf;
    DeclaredOf(b, JSON_BATCH);
    JsonStarts(b);
  }

  /** A message that declares no CloudEvents media type and no version is no event. */
  lemma NoVersionIsNoEvent(b: Binding, entries: seq<Header>, body: bytes, r: Receiver)
    requires DetectMode(b, entries) == BinaryMode && (b.OfMqtt() ==> CountNamed(entries, b.ContentTypeHeader()) <= 1)
    requires forall h :: h in entries ==> !Same(b.Rule(), h.name, b.Prefix() + NameOf(SpecVersion))
    ensures Received(b, entries, body, r) == Err(NotACloudEvent)
  {
    hide DetectMode, CountNamed, ReadBinary, NameOf, Same;
    LookupAbsent(b.Rule(), entries, b.Prefix() + NameOf(SpecVersion));
  }

  /** MQTT refuses a message with two content type properties, whatever they are. */
  lemma TwoContentTypesAreRefused(b: Binding, entries: seq<Header>, i: nat, j: nat, body: bytes, r: Receiver)
    requires b.OfMqtt() && i < j < |entries|
    requires entries[i].name == b.ContentTypeHeader() && entries[j].name == b.ContentTypeHeader()
    ensures Received(b, entries, body, r) == Err(InvalidArgument)
  {
    hide DetectMode, ReadBinary, Lookup, CountNamed;
    CountedTwice(entries, b.ContentTypeHeader(), i, j);
  }

  lemma {:induction false} CountedOnce(entries: seq<Header>, name: bytes, i: nat)
    requires i < |entries| && entries[i].name == name
    ensures CountNamed(entries, name) >= 1
  {
    if i > 0 {
      CountedOnce(entries[1..], name, i - 1);
    }
  }

  lemma {:induction false} CountedTwice(entries: seq<Header>, name: bytes, i: nat, j: nat)
    requires i < j < |entries| && entries[i].name == name && entries[j].name == name
    ensures CountNamed(entries, name) >= 2
  {
    if i > 0 {
      CountedTwice(entries[1..], name, i - 1, j - 1);
    } else {
      CountedOnce(entries[1..], name, j - 1);
    }
  }

  /** A body is kept as a document exactly when it is JSON that parses, is to be parsed, and is within the
      retention limit; JSON that is to be parsed and does not parse is the only body that is refused. */
  lemma DocumentsAreKeptExactly(body: bytes, datacontenttype: Option<bytes>, r: Receiver)
    ensures var read := ReadBody(body, datacontenttype, r);
            var parsed := body != [] && DeclaredJson(datacontenttype) && r.parseBinaryBody;
            && (read.Ok? && read.value.JsonDocument?
                <==> parsed && r.codec.parse(body).Ok? && |body| <= r.retainUpTo)
            && (read.Err? <==> parsed && r.codec.parse(body).Err?)
            && (read.Ok? && read.value.JsonDocument? ==> Ok(read.value.document) == r.codec.parse(body))
  {
    hide IsJsonContentType;
  }

  // Values on the wire

  /** What the transport of a binding can carry as a value. */
  ghost predicate Carried(b: Binding, value: bytes) {
    match b
    case Http => forall i :: 0 <= i < |value| ==> 0x21 <= value[i] <= 0x7E && value[i] != Percent.QUOTE
    case HttpLiteral => Utf8.WellFormed(value) && forall i :: 0 <= i < |value| ==> 0x20 <= value[i] && value[i] != 0x7F
    case Kafka => Utf8.WellFormed(value)
    case Nats => forall i :: 0 <= i < |value| ==> 0x21 <= value[i] <= 0x7E && value[i] != Percent.QUOTE
    case _ => Utf8.WellFormed(value) && |value| < 0x1_0000 && forall i :: 0 <= i < |value| ==> value[i] != 0
  }

  /** A binding writes what its transport can carry, and a binding that writes values as they are refuses
      nothing else. */
  lemma WrittenIsCarried(b: Binding, text: bytes)
    ensures EncodeValue(b, text).Ok? ==> Carried(b, EncodeValue(b, text).value)
    ensures !b.Http? && !b.Nats? ==> (EncodeValue(b, text).Ok? <==> Carried(b, text))
  {
    hide Percent.Encode, Utf8.WellFormed;
    Percent.EncodedIsPrintable(text);
  }
}
