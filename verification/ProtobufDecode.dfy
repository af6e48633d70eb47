/** Reading a CloudEvent from its Protocol Buffers encoding
    (include/cloudevents/format/protobuf_format.hpp). The visitors of the source change variables they
    capture; here each takes the state and gives the next one, and Walk threads it. */
module ProtobufDecode {
  import opened Wrappers
  import opened Arithmetic
  import opened Wire
  import opened Attributes
  import opened Timestamp
  import Order
  import Utf8
  import WireReader

  datatype DecodeOptions = DecodeOptions(maxEncodedSize: uint64, maxAttributeCount: uint64, maxBatchEventCount: uint64)

  // Values

  /** `static_cast<std::int64_t>` of an unsigned value. */
  function Signed(v: uint64): int {
    if v < 0x8000_0000_0000_0000 then v else v - WORD
  }

  function ReadText(body: bytes): Result<bytes> {
    if Utf8.Accepts(body) then Ok(body) else Err(InvalidUtf8)
  }

  /** How precisely a decoded instant is shown: to whole seconds or thousandths, millionths or billionths of
      one, whichever loses nothing and is coarsest. */
  function DigitsHolding(nanos: nat): digitCount {
    if nanos == 0 then 0 else if nanos % 1_000_000 == 0 then 3 else if nanos % 1000 == 0 then 6 else 9
  }

  function MakeInstant(seconds: int, nanos: int): Result<Timestamp> {
    if nanos < 0 || nanos >= NANOS then Err(InvalidTimestamp)
    else if seconds > REPRESENTABLE || seconds < -REPRESENTABLE then Err(InvalidTimestamp)
    else Ok(Timestamp(seconds * NANOS + nanos, 0, UtcDesignator, DigitsHolding(nanos)))
  }

  datatype RawInstant = RawInstant(seconds: int, nanos: int)

  function VisitTimestamp(raw: RawInstant, field: Field): Result<RawInstant> {
    Ok(if field.VarintField? && field.number == 1 then raw.(seconds := Signed(field.value))
       else if field.VarintField? && field.number == 2 then raw.(nanos := Signed(field.value))
       else raw)
  }

  function ReadTimestamp(body: bytes): Result<Timestamp> {
    var raw :- Walk(VisitTimestamp, RawInstant(0, 0), body);
    MakeInstant(raw.seconds, raw.nanos)
  }

  type Arm = Option<AttributeValue>

  function ReadInteger(v: uint64): Result<AttributeValue> {
    if -0x8000_0000 <= Signed(v) < 0x8000_0000 then Ok(Integer(Signed(v))) else Err(OutOfRange)
  }

  function ReadVarintArm(number: fieldNumber, value: uint64): Result<Arm> {
    if number == 1 then Ok(Some(Bool(value != 0)))
    else if number != 2 then Ok(None)
    else
      var integer :- ReadInteger(value);
      Ok(Some(integer))
  }

  function ReadLengthArm(number: fieldNumber, body: bytes): Result<Arm> {
    if number == 4 then Ok(Some(Binary(body)))
    else if number == 7 then
      var instant :- ReadTimestamp(body);
      Ok(Some(Instant(instant)))
    else if number == 3 || number == 5 || number == 6 then
      var text :- ReadText(body);
      Ok(Some(if number == 5 then Uri(text) else if number == 6 then UriRef(text) else Text(text)))
    else Ok(None)
  }

  /** An arm replaces whatever arm was read before it; a field that is no arm changes nothing. */
  function VisitValue(value: Arm, field: Field): Result<Arm> {
    var read :- if field.VarintField? then ReadVarintArm(field.number, field.value) else ReadLengthArm(field.number, field.body);
    Ok(if read.Some? then read else value)
  }

  function ReadValue(body: bytes): Result<Arm> {
    Walk(VisitValue, None, body)
  }

  datatype Entry = Entry(key: bytes, value: Arm)

  function VisitEntry(entry: Entry, field: Field): Result<Entry> {
    if !field.LengthField? then Ok(entry)
    else if field.number == 1 then
      var key :- ReadText(field.body);
      Ok(entry.(key := key))
    else if field.number == 2 then
      var value :- ReadValue(field.body);
      Ok(entry.(value := value))
    else Ok(entry)
  }

  type ArmMap = map<bytes, Arm>

  /** The entry overwrites an earlier one of its key. */
  function ReadEntry(body: bytes, attributes: ArmMap): Result<ArmMap> {
    var entry :- Walk(VisitEntry, Entry([], None), body);
    Ok(attributes[entry.key := entry.value])
  }

  // URI references

  predicate IsAlphanumeric(c: byte) {
    'a' as int <= c <= 'z' as int || 'A' as int <= c <= 'Z' as int || '0' as int <= c <= '9' as int
  }

  predicate IsHexDigit(c: byte) {
    '0' as int <= c <= '9' as int || 'a' as int <= c <= 'f' as int || 'A' as int <= c <= 'F' as int
  }

  predicate IsUriPunctuation(c: byte) {
    c in Ascii("-._~:/?#[]@!$&'()*+,;=")
  }

  const PERCENT: byte := '%' as int
  const FRAGMENT: byte := '#' as int

  /** The text is made of allowed characters and percent signs that start two hexadecimal digits. */
  predicate WellEscaped(text: bytes) {
    if text == [] then true
    else if text[0] == PERCENT then
      |text| >= 3 && IsHexDigit(text[1]) && IsHexDigit(text[2]) && WellEscaped(text[3..])
    else (IsAlphanumeric(text[0]) || IsUriPunctuation(text[0])) && WellEscaped(text[1..])
  }

  predicate ValidUriReference(text: bytes) {
    WellEscaped(text) && multiset(text)[FRAGMENT] <= 1
  }

  // The event's fields

  datatype DataField = NoField | BinaryField | TextField | ProtoField

  datatype Raw = Raw(
    id: bytes, source: bytes, version: bytes, kind: bytes,
    attributes: ArmMap, entries: nat,
    dataKind: DataField, data: bytes, typeUrl: bytes)

  const EMPTY_RAW := Raw([], [], [], [], map[], 0, NoField, [], [])

  function StoreRequired(number: fieldNumber, body: bytes, into: Raw): Result<Raw> {
    var text :- ReadText(body);
    Ok(if number == 1 then into.(id := text)
       else if number == 2 then into.(source := text)
       else if number == 3 then into.(version := text)
       else into.(kind := text))
  }

  function StoreAttributeEntry(body: bytes, options: DecodeOptions, into: Raw): Result<Raw> {
    if into.entries + 1 > options.maxAttributeCount then Err(OutOfRange) else
    var attributes :- ReadEntry(body, into.attributes);
    Ok(into.(entries := into.entries + 1, attributes := attributes))
  }

  datatype Any = Any(typeUrl: bytes, value: bytes)

  function VisitAny(any: Any, field: Field): Result<Any> {
    if !field.LengthField? then Ok(any)
    else if field.number == 2 then Ok(any.(value := field.body))
    else if field.number == 1 then
      var text :- ReadText(field.body);
      Ok(any.(typeUrl := text))
    else Ok(any)
  }

  function StoreAny(body: bytes, into: Raw): Result<Raw> {
    var any :- Walk(VisitAny, Any([], []), body);
    if !ValidUriReference(any.typeUrl) then Err(ParseError)
    else Ok(into.(typeUrl := any.typeUrl, data := any.value))
  }

  /** A data field takes the place of one read before it. */
  function StoreData(number: fieldNumber, body: bytes, into: Raw): Result<Raw> {
    var cleared := into.(typeUrl := [], data := body);
    if number == 6 then Ok(cleared.(dataKind := BinaryField))
    else if number == 8 then StoreAny(body, cleared.(dataKind := ProtoField))
    else
      var text :- ReadText(body);
      Ok(cleared.(dataKind := TextField))
  }

  function StoreField(options: DecodeOptions, into: Raw, field: Field): Result<Raw> {
    if !field.LengthField? then Ok(into)
    else if field.number <= 4 then StoreRequired(field.number, field.body, into)
    else if field.number == 5 then StoreAttributeEntry(field.body, options, into)
    else if field.number <= 8 then StoreData(field.number, field.body, into)
    else Ok(into)
  }

  function EventVisitor(options: DecodeOptions): (Raw, Field) -> Result<Raw> {
    (into, field) => StoreField(options, into, field)
  }

  function Scan(body: bytes, options: DecodeOptions): Result<Raw> {
    Walk(EventVisitor(options), EMPTY_RAW, body)
  }

  // From the wire to the event

  function StoreText(made: Option<Result<bytes>>): Result<bytes> {
    if made.None? then Err(TypeMismatch) else made.value
  }

  function ApplyAttribute(name: bytes, value: AttributeValue, into: Options): Result<Options> {
    var reserved := ReservedAs(name);
    if reserved == Some(DataContentType) then
      var text :- StoreText(if value.Text? then Some(MakeContentType(value.text)) else None);
      Ok(into.(datacontenttype := Some(text)))
    else if reserved == Some(DataSchema) then
      var text :- StoreText(if value.Uri? || value.UriRef? then Some(MakeOptional(value.text)) else None);
      Ok(into.(dataschema := Some(text)))
    else if reserved == Some(Subject) then
      var text :- StoreText(if value.Text? then Some(MakeOptional(value.text)) else None);
      Ok(into.(subject := Some(text)))
    else if reserved == Some(Attributes.Time) then
      if value.Instant? then Ok(into.(time := Some(value.time))) else Err(TypeMismatch)
    else
      var extension :- MakeExtensionName(name);
      Ok(into.(extensions := into.extensions[extension := value]))
  }

  function ApplyAttributes(keys: seq<bytes>, attributes: ArmMap, into: Options): Result<Options>
    requires forall k :: k in keys ==> k in attributes
  {
    if keys == [] then Ok(into)
    else if attributes[keys[0]].None? then Err(InvalidAttributeValue)
    else
      var next :- ApplyAttribute(keys[0], attributes[keys[0]].value, into);
      ApplyAttributes(keys[1..], attributes, next)
  }

  function ProtobufMediaType(): bytes {
    Ascii("application/protobuf")
  }

  /** What an event becomes when its data came as an Any: octets, a media type if it declared none, and a
      schema from the type URL if it named none and there is one to take. */
  function ApplyProtoData(raw: Raw, into: Options): Result<Options> {
    var typed := if into.datacontenttype.None? then into.(datacontenttype := Some(ProtobufMediaType())) else into;
    if into.dataschema.None? && raw.typeUrl != [] then
      var schema :- MakeOptional(raw.typeUrl);
      Ok(typed.(dataschema := Some(schema), data := BinaryData(raw.data)))
    else Ok(typed.(data := BinaryData(raw.data)))
  }

  function ApplyData(raw: Raw, into: Options): Result<Options> {
    match raw.dataKind
    case NoField => Ok(into)
    case TextField => Ok(into.(data := TextData(raw.data)))
    case BinaryField => Ok(if raw.data != [] || into.datacontenttype.Some? then into.(data := BinaryData(raw.data)) else into)
    case ProtoField => ApplyProtoData(raw, into)
  }

  function BuildEvent(raw: Raw): Result<Event> {
    var version :- MakeVersion(raw.version);
    var id :- MakeRequired(raw.id);
    var source :- MakeRequired(raw.source);
    var kind :- MakeRequired(raw.kind);
    var options :- ApplyAttributes(Order.Sorted(raw.attributes.Keys), raw.attributes, NO_OPTIONS);
    var rest :- ApplyData(raw, options);
    Build(Builder(Some(id), Some(source), Some(kind), rest))
  }

  function ScanLimited(encoded: bytes, options: DecodeOptions): Result<Raw> {
    if |encoded| > options.maxEncodedSize then Err(OutOfRange) else Scan(encoded, options)
  }

  function Decode(encoded: bytes, options: DecodeOptions): Result<Event> {
    var raw :- ScanLimited(encoded, options);
    BuildEvent(raw)
  }

  datatype Detailed = Detailed(event: Event, typeUrl: Option<bytes>)

  function DecodeDetailed(encoded: bytes, options: DecodeOptions): Result<Detailed> {
    var raw :- ScanLimited(encoded, options);
    var event :- BuildEvent(raw);
    Ok(Detailed(event, if raw.dataKind == ProtoField && raw.typeUrl != [] then Some(raw.typeUrl) else None))
  }

  // Batches

  function VisitBatch(limit: nat, bodies: seq<bytes>, field: Field): Result<seq<bytes>> {
    if !field.LengthField? || field.number != 1 then Ok(bodies)
    else if |bodies| >= limit then Err(OutOfRange)
    else Ok(bodies + [field.body])
  }

  function BatchVisitor(limit: nat): (seq<bytes>, Field) -> Result<seq<bytes>> {
    (bodies, field) => VisitBatch(limit, bodies, field)
  }

  function BatchBodies(encoded: bytes, options: DecodeOptions): Result<seq<bytes>> {
    Walk(BatchVisitor(options.maxBatchEventCount), [], encoded)
  }

  function DecodeAll(bodies: seq<bytes>, options: DecodeOptions): Result<seq<Event>> {
    if bodies == [] then Ok([]) else
    var first :- Decode(bodies[0], options);
    var rest :- DecodeAll(bodies[1..], options);
    Ok([first] + rest)
  }

  function DecodeBatch(encoded: bytes, options: DecodeOptions): Result<seq<Event>> {
    var bodies :- BatchBodies(encoded, options);
    DecodeAll(bodies, options)
  }

  // The loops of the source

  method ScanEvent(body: bytes, options: DecodeOptions) returns (r: Result<Raw>)
    ensures r == Scan(body, options)
  {
    r := WireReader.ForEachField(body, EventVisitor(options), EMPTY_RAW);
  }

  method DecodeEvents(encoded: bytes, options: DecodeOptions) returns (r: Result<seq<Event>>)
    ensures r == DecodeBatch(encoded, options)
  {
    hide Decode;
    var bodies := WireReader.ForEachField(encoded, BatchVisitor(options.maxBatchEventCount), []);
    if bodies.Err? {
      return Err(bodies.error);
    }
    var events: seq<Event> := [];
    BehindNothing(DecodeAll(bodies.value, options));
    assert bodies.value[0..] == bodies.value;
    for i := 0 to |bodies.value|
      invariant DecodeAll(bodies.value, options) == Behind(events, DecodeAll(bodies.value[i..], options))
    {
      var rest := bodies.value[i..];
      assert rest[0] == bodies.value[i] && rest[1..] == bodies.value[i + 1..];
      var decoded := Decode(bodies.value[i], options);
      if decoded.Err? {
        return Err(decoded.error);
      }
      BehindOne(events, decoded.value, DecodeAll(rest[1..], options));
      events := events + [decoded.value];
    }
    BehindEmpty(events);
    r := Ok(events);
  }

  /** The events decoded so far, with those still to come behind them. */
  function Behind(events: seq<Event>, later: Result<seq<Event>>): Result<seq<Event>> {
    match later
    case Ok(rest) => Ok(events + rest)
    case Err(e) => Err(e)
  }

  lemma BehindNothing(later: Result<seq<Event>>)
    ensures Behind([], later) == later
  {
    if later.Ok? {
      assert [] + later.value == later.value;
    }
  }

  lemma BehindEmpty(events: seq<Event>)
    ensures Behind(events, Ok([])) == Ok(events)
  {
    assert events + [] == events;
  }

  lemma BehindOne(events: seq<Event>, event: Event, later: Result<seq<Event>>)
    ensures Behind(events, Behind([event], later)) == Behind(events + [event], later)
  {
    if later.Ok? {
      assert events + ([event] + later.value) == events + [event] + later.value;
    }
  }

  method CheckUriReference(text: bytes) returns (valid: bool)
    ensures valid <==> ValidUriReference(text)
  {
    var due := 0;
    assert text[0..] == text;
    for i := 0 to |text|
      invariant 0 <= due <= 2
      invariant WellEscaped(text) <==> AfterDue(text[i..], due)
    {
      var c := text[i];
      assert text[i..][1..] == text[i + 1..] && text[i..][0] == c;
      hide AfterDue, IsHexDigit, IsAlphanumeric, IsUriPunctuation;
      AfterDueUnfolds(text[i..], due);
      if due > 0 {
        if !IsHexDigit(c) {
          return false;
        }
        due := due - 1;
      } else if c == PERCENT {
        due := 2;
      } else if !IsAlphanumeric(c) && !IsUriPunctuation(c) {
        return false;
      }
    }
    valid := due == 0 && multiset(text)[FRAGMENT] <= 1;
  }

  /** A text that first owes some digits of an escape. */
  predicate AfterDue(text: bytes, due: nat) {
    due <= |text| && (forall i :: 0 <= i < due ==> IsHexDigit(text[i])) && WellEscaped(text[due..])
  }

  lemma AfterDueUnfolds(text: bytes, due: nat)
    requires text != [] && due <= 2
    ensures due > 0 ==> (AfterDue(text, due) <==> IsHexDigit(text[0]) && AfterDue(text[1..], due - 1))
    ensures due == 0 && text[0] == PERCENT ==> (AfterDue(text, 0) <==> AfterDue(text[1..], 2))
    ensures due == 0 && text[0] != PERCENT
            ==> (AfterDue(text, 0) <==> (IsAlphanumeric(text[0]) || IsUriPunctuation(text[0])) && AfterDue(text[1..], 0))
  {
    hide IsHexDigit, IsAlphanumeric, IsUriPunctuation;
    var rest := text[1..];
    if due > 0 && due <= |text| {
      assert text[due..] == rest[due - 1..];
      assert forall i :: 0 < i < due ==> text[i] == rest[i - 1];
    }
    if due == 0 && text[0] == PERCENT && |text| >= 3 {
      assert text[3..] == rest[2..];
    }
    assert text[0..] == text && rest[0..] == rest;
  }
}
