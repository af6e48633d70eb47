/** Attribute names, values and the checks on them (include/cloudevents/attributes.hpp), and the event
    they make up (include/cloudevents/core.hpp). */
module Attributes {
  import opened Wrappers
  import opened JsonDom
  import opened Timestamp
  import Utf8

  // Names

  /** The reserved names. */
  datatype Reserved =
    | Id | Source | SpecVersion | Type | DataContentType | DataSchema | Subject | Time | Data | DataBase64

  function NameOf(r: Reserved): (name: bytes)
    ensures name != []
  {
    match r
    case Id => Ascii("id")
    case Source => Ascii("source")
    case SpecVersion => Ascii("specversion")
    case Type => Ascii("type")
    case DataContentType => Ascii("datacontenttype")
    case DataSchema => Ascii("dataschema")
    case Subject => Ascii("subject")
    case Time => Ascii("time")
    case Data => Ascii("data")
    case DataBase64 => Ascii("data_base64")
  }

  /** The reserved name a text is, if it is one. */
  function ReservedAs(name: bytes): Option<Reserved> {
    if name == NameOf(Id) then Some(Id)
    else if name == NameOf(Source) then Some(Source)
    else if name == NameOf(SpecVersion) then Some(SpecVersion)
    else if name == NameOf(Type) then Some(Type)
    else if name == NameOf(DataContentType) then Some(DataContentType)
    else if name == NameOf(DataSchema) then Some(DataSchema)
    else if name == NameOf(Subject) then Some(Subject)
    else if name == NameOf(Time) then Some(Time)
    else if name == NameOf(Data) then Some(Data)
    else if name == NameOf(DataBase64) then Some(DataBase64)
    else None
  }

  /** Reserved names are told apart by their length and their first two characters. */
  lemma NamesDiffer(a: Reserved, b: Reserved)
    ensures NameOf(a) == NameOf(b) ==> a == b
  {
    if NameOf(a) == NameOf(b) {
      assert |NameOf(a)| == |NameOf(b)|;
      assert NameOf(a)[0] == NameOf(b)[0] && NameOf(a)[1] == NameOf(b)[1];
    }
  }

  lemma ReservedAsName(r: Reserved)
    ensures ReservedAs(NameOf(r)) == Some(r)
  {
    hide NameOf;
    forall other: Reserved {
      NamesDiffer(r, other);
    }
  }

  lemma NameOfReserved(name: bytes)
    ensures ReservedAs(name).Some? ==> NameOf(ReservedAs(name).value) == name
  {
    hide NameOf;
  }

  predicate IsNameCharacter(c: byte) {
    'a' as int <= c <= 'z' as int || '0' as int <= c <= '9' as int
  }

  predicate ValidName(name: bytes) {
    name != [] && forall i :: 0 <= i < |name| ==> IsNameCharacter(name[i])
  }

  lemma LiteralIsName(s: string)
    requires s != [] && forall i :: 0 <= i < |s| ==> 'a' <= s[i] <= 'z'
    ensures ValidName(Ascii(s)) && forall i :: 0 <= i < |s| ==> Ascii(s)[i] < 0x80
  {
  }

  /** All reserved names but data_base64 have the form of an attribute name. */
  lemma ReservedNamesAreValid(r: Reserved)
    ensures r != DataBase64 ==> ValidName(NameOf(r))
    ensures forall i :: 0 <= i < |NameOf(r)| ==> NameOf(r)[i] < 0x80
  {
    hide ValidName;
    match r
    case Id => LiteralIsName("id");
    case Source => LiteralIsName("source");
    case SpecVersion => LiteralIsName("specversion");
    case Type => LiteralIsName("type");
    case DataContentType => LiteralIsName("datacontenttype");
    case DataSchema => LiteralIsName("dataschema");
    case Subject => LiteralIsName("subject");
    case Time => LiteralIsName("time");
    case Data => LiteralIsName("data");
    case DataBase64 =>
  }

  lemma ValidNameIsAscii(name: bytes)
    requires ValidName(name)
    ensures Utf8.WellFormed(name)
  {
    Utf8.AsciiIsWellFormed(name);
  }

  // Case and media types

  function Lower(c: byte): (l: byte) {
    if 'A' as int <= c <= 'Z' as int then c - 'A' as int + 'a' as int else c
  }

  predicate EqualIgnoringCase(a: bytes, b: bytes) {
    |a| == |b| && forall i :: 0 <= i < |a| ==> Lower(a[i]) == Lower(b[i])
  }

  predicate StartsWithIgnoringCase(text: bytes, prefix: bytes) {
    |prefix| <= |text| && EqualIgnoringCase(text[..|prefix|], prefix)
  }

  predicate EndsWithIgnoringCase(text: bytes, suffix: bytes) {
    |suffix| <= |text| && EqualIgnoringCase(text[|text| - |suffix|..], suffix)
  }

  predicate IsSpace(c: byte) {
    c == 0x20 || 0x09 <= c <= 0x0D
  }

  predicate IsToken(c: byte) {
    || 'A' as int <= c <= 'Z' as int || 'a' as int <= c <= 'z' as int || '0' as int <= c <= '9' as int
    || c == '!' as int || c == '#' as int || c == '$' as int || c == '%' as int || c == '&' as int
    || c == '\'' as int || c == '*' as int || c == '+' as int || c == '.' as int || c == '^' as int
    || c == '_' as int || c == '`' as int || c == '|' as int || c == '~' as int || c == '-' as int
  }

  function SkipSpaces(text: bytes): bytes {
    if text != [] && IsSpace(text[0]) then SkipSpaces(text[1..]) else text
  }

  function TokenRun(text: bytes): (n: nat)
    ensures n <= |text|
  {
    if text != [] && IsToken(text[0]) then 1 + TokenRun(text[1..]) else 0
  }

  /** The subtype of a media type: spaces, a token, a slash, a token, spaces, and parameters or nothing. */
  function Subtype(text: bytes): Option<bytes> {
    var body := SkipSpaces(text);
    var n := TokenRun(body);
    if n == 0 || n == |body| || body[n] != '/' as int then None else
    var after := body[n + 1..];
    var m := TokenRun(after);
    var rest := SkipSpaces(after[m..]);
    if m == 0 || (rest != [] && rest[0] != ';' as int) then None else Some(after[..m])
  }

  lemma {:induction false} TokenRunIs(text: bytes, n: nat)
    requires n <= |text| && (forall i :: 0 <= i < n ==> IsToken(text[i])) && (n < |text| ==> !IsToken(text[n]))
    ensures TokenRun(text) == n
  {
    hide IsToken;
    if n > 0 {
      TokenRunIs(text[1..], n - 1);
    }
  }

  /** A type and a subtype of token characters, joined by a slash, are a media type. */
  lemma PlainMediaType(kind: bytes, subtype: bytes)
    requires kind != [] && subtype != []
    requires forall i :: 0 <= i < |kind| ==> IsToken(kind[i])
    requires forall i :: 0 <= i < |subtype| ==> IsToken(subtype[i])
    ensures Subtype(kind + ['/' as int] + subtype) == Some(subtype)
  {
    hide IsToken;
    var text := kind + ['/' as int] + subtype;
    assert text[0] == kind[0];
    TokenIsNoSpace(text[0]);
    TokenRunIs(text, |kind|);
    assert text[|kind| + 1..] == subtype;
    TokenRunIs(subtype, |subtype|);
    assert subtype[|subtype|..] == [];
    assert subtype[..|subtype|] == subtype;
  }

  lemma TokenIsNoSpace(c: byte)
    ensures IsToken(c) ==> !IsSpace(c)
    ensures !IsToken('/' as int)
  {
  }

  predicate IsJsonContentType(text: bytes) {
    var subtype := Subtype(text);
    subtype.Some? && (EqualIgnoringCase(subtype.value, Ascii("json")) || EndsWithIgnoringCase(subtype.value, Ascii("+json")))
  }

  /** A media type of token characters is a JSON one exactly when its subtype is json or ends in +json,
      ignoring case. */
  lemma JsonMediaType(kind: bytes, subtype: bytes)
    requires kind != [] && subtype != []
    requires forall i :: 0 <= i < |kind| ==> IsToken(kind[i])
    requires forall i :: 0 <= i < |subtype| ==> IsToken(subtype[i])
    ensures IsJsonContentType(kind + ['/' as int] + subtype)
            <==> EqualIgnoringCase(subtype, Ascii("json")) || EndsWithIgnoringCase(subtype, Ascii("+json"))
  {
    hide IsToken, EqualIgnoringCase, EndsWithIgnoringCase;
    PlainMediaType(kind, subtype);
  }

  // The policies of the validated strings

  function CheckText(empty: Errc, text: bytes): Result<bytes> {
    if text == [] then Err(empty) else if !Utf8.Accepts(text) then Err(InvalidUtf8) else Ok(text)
  }

  function MakeRequired(text: bytes): Result<bytes> {
    CheckText(MissingRequiredAttribute, text)
  }

  function MakeOptional(text: bytes): Result<bytes> {
    CheckText(InvalidAttributeValue, text)
  }

  function MakeContentType(text: bytes): Result<bytes> {
    var checked :- MakeOptional(text);
    if Subtype(text).None? then Err(InvalidContentType) else Ok(text)
  }

  /** A check gives back the text it accepted, which is then well-formed UTF-8. */
  lemma MadeIsItself(text: bytes)
    ensures MakeRequired(text).Ok? ==> MakeRequired(text) == Ok(text)
    ensures MakeOptional(text).Ok? ==> MakeOptional(text) == Ok(text)
    ensures MakeContentType(text).Ok? ==> MakeContentType(text) == Ok(text)
    ensures MakeRequired(text).Ok? || MakeOptional(text).Ok? || MakeContentType(text).Ok? ==> Utf8.WellFormed(text)
  {
    hide Subtype;
  }

  function MakeExtensionName(name: bytes): Result<bytes> {
    if !ValidName(name) then Err(InvalidAttributeName)
    else if ReservedAs(name).Some? then Err(ReservedAttributeName)
    else Ok(name)
  }

  const VERSION: bytes := Ascii("1.0")

  function MakeVersion(text: bytes): Result<bytes> {
    if text != VERSION then Err(UnsupportedSpecVersion) else Ok(text)
  }

  // Events

  datatype AttributeValue =
    | Bool(b: bool)
    | Integer(i: int32)
    | Text(text: bytes)
    | Binary(octets: bytes)
    | Uri(text: bytes)
    | UriRef(text: bytes)
    | Instant(time: Timestamp)

  datatype Payload =
    | NoData
    | TextData(text: bytes)
    | BinaryData(octets: bytes)
    | JsonText(raw: bytes)
    | JsonDocument(document: Json)

  datatype Options = Options(
    datacontenttype: Option<bytes>,
    dataschema: Option<bytes>,
    subject: Option<bytes>,
    time: Option<Timestamp>,
    extensions: map<bytes, AttributeValue>,
    data: Payload)

  datatype Event = Event(id: bytes, source: bytes, kind: bytes, rest: Options)

  datatype Builder = Builder(id: Option<bytes>, source: Option<bytes>, kind: Option<bytes>, rest: Options)

  const NO_OPTIONS := Options(None, None, None, None, map[], NoData)
  const EMPTY_BUILDER := Builder(None, None, None, NO_OPTIONS)

  function Build(b: Builder): Result<Event> {
    if b.id.None? || b.source.None? || b.kind.None? then Err(MissingRequiredAttribute)
    else Ok(Event(b.id.value, b.source.value, b.kind.value, b.rest))
  }

  predicate OptionalOk(text: Option<bytes>) {
    text.Some? ==> MakeOptional(text.value).Ok?
  }

  /** What the validated strings of an event guarantee. */
  ghost predicate ValidOptions(o: Options) {
    && (o.datacontenttype.Some? ==> MakeContentType(o.datacontenttype.value).Ok?)
    && OptionalOk(o.dataschema) && OptionalOk(o.subject)
    && forall name :: name in o.extensions ==> MakeExtensionName(name).Ok?
  }

  ghost predicate ValidEvent(e: Event) {
    MakeRequired(e.id).Ok? && MakeRequired(e.source).Ok? && MakeRequired(e.kind).Ok? && ValidOptions(e.rest)
  }
}
