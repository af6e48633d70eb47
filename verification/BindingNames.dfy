/** What each field of a message does by its name, and which messages are events: told for every list of
    fields, whoever wrote it (include/cloudevents/binding/common.hpp, http.hpp, kafka.hpp, nats.hpp,
    mqtt.hpp). */
module BindingNames {
  import opened Wrappers
  import opened Attributes
  import opened Headers
  import opened Bindings
  import opened BindingOrder
  import opened BindingReads
  import opened TextChecks
  import Percent
  import Timestamp
  import Utf8

  // Values

  /** Why a value is no text for the binding, where values are written as they are. */
  ghost function PlainReason(b: Binding, text: bytes): Option<Errc> {
    if !Utf8.WellFormed(text) then Some(InvalidUtf8)
    else if b.OfMqtt() && (|text| > 65_535 || exists i :: 0 <= i < |text| && text[i] == 0) then Some(InvalidArgument)
    else None
  }

  /** Values are read as they are, or percent-decoded by HTTP and NATS. */
  lemma ValueReadExactly(b: Binding, text: bytes)
    ensures DecodeValue(b, text) == if b.Http? || b.Nats? then Percent.Decode(text) else Unless(PlainReason(b, text), text)
  {
    hide Utf8.WellFormed, Percent.Decode;
    assert 0 in text <==> exists i :: 0 <= i < |text| && text[i] == 0;
  }

  /** Values are written as they are, or percent-encoded by HTTP and NATS. NATS checks nothing; literal HTTP
      refuses control characters before it looks at anything else. */
  lemma ValueWrittenExactly(b: Binding, text: bytes)
    ensures EncodeValue(b, text)
            == match b
               case Http => if Utf8.WellFormed(text) then Ok(Percent.Encode(text)) else Err(InvalidUtf8)
               case Nats => Ok(Percent.Encode(text))
               case HttpLiteral =>
                 if exists i :: 0 <= i < |text| && (text[i] < 32 || text[i] == 127) then Err(InvalidArgument)
                 else Unless(PlainReason(b, text), text)
               case _ => Unless(PlainReason(b, text), text)
  {
    hide Utf8.WellFormed, Percent.Encode;
    assert 0 in text <==> exists i :: 0 <= i < |text| && text[i] == 0;
  }

  // Names

  /** The prefixes, in their octets. */
  lemma PrefixesAre()
    ensures forall b: Binding :: b.Prefix() == if b.Kafka? then [99, 101, 95] else if b.Mqtt? then [] else [99, 101, 45]
  {
    assert Ascii("ce_") == [99, 101, 95] && Ascii("ce-") == [99, 101, 45];
  }

  predicate NoCapitals(name: bytes) {
    forall i :: 0 <= i < |name| ==> !(65 <= name[i] <= 90)
  }

  /** The field is the attribute's: the prefix and the name, in any case where the binding ignores case. */
  predicate IsNamed(b: Binding, field: bytes, name: bytes) {
    Same(b.Rule(), field, b.Prefix() + name) && (b.Rule().CaseInsensitive? ==> NoCapitals(name))
  }

  lemma LoweredIsItself(name: bytes)
    ensures NoCapitals(name) <==> LowerAll(name) == name
    ensures NoCapitals(LowerAll(name))
  {
    forall i | 0 <= i < |name|
      ensures LowerAll(name)[i] == Lower(name[i])
    {
    }
  }

  lemma EqualInParts(field: bytes, prefix: bytes, name: bytes)
    ensures EqualIgnoringCase(field, prefix + name)
            <==> |field| == |prefix| + |name| && EqualIgnoringCase(field[..|prefix|], prefix) && EqualIgnoringCase(field[|prefix|..], name)
  {
    hide Lower;
    if |field| == |prefix| + |name| {
      var k := |prefix|;
      if EqualIgnoringCase(field, prefix + name) {
        assert forall i :: 0 <= i < k ==> field[..k][i] == field[i] && (prefix + name)[i] == prefix[i];
        assert forall i :: 0 <= i < |name| ==> field[k..][i] == field[k + i] && (prefix + name)[k + i] == name[i];
      }
      if EqualIgnoringCase(field[..k], prefix) && EqualIgnoringCase(field[k..], name) {
        forall i | 0 <= i < |field|
          ensures Lower(field[i]) == Lower((prefix + name)[i])
        {
          if i < k {
            assert field[..k][i] == field[i];
          } else {
            assert field[k..][i - k] == field[i];
          }
        }
      }
    }
  }

  lemma LoweredEqual(a: bytes, c: bytes)
    requires NoCapitals(c)
    ensures EqualIgnoringCase(a, c) <==> LowerAll(a) == c
  {
    LoweredIsItself(c);
    if EqualIgnoringCase(a, c) {
      assert forall i :: 0 <= i < |a| ==> LowerAll(a)[i] == Lower(c[i]) == LowerAll(c)[i];
    }
    if LowerAll(a) == c {
      assert forall i :: 0 <= i < |a| ==> Lower(a[i]) == c[i] == LowerAll(c)[i];
    }
  }

  /** A field carries the prefix exactly when it is the attribute's of some name, and that is the name
      taken from it. */
  lemma NamedExactly(b: Binding, field: bytes, name: bytes)
    ensures IsNamed(b, field, name) <==> CarriesPrefix(b, field) && AttributeNameOf(b, field) == name
  {
    hide Lower, EqualIgnoringCase, LowerAll;
    var k := |b.Prefix()|;
    if b.Rule().CaseSensitive? {
      if k <= |field| {
        assert field == field[..k] + field[k..];
      }
      assert (b.Prefix() + name)[..k] == b.Prefix() && (b.Prefix() + name)[k..] == name;
    } else {
      EqualInParts(field, b.Prefix(), name);
      SizesAgree(field, b.Prefix() + name);
      if k <= |field| {
        LoweredIsItself(field[k..]);
        LoweredSize(field[k..]);
        if NoCapitals(name) {
          LoweredEqual(field[k..], name);
        }
      }
    }
  }

  lemma CarriedIsLonger(b: Binding, field: bytes)
    ensures CarriesPrefix(b, field) ==> |b.Prefix()| <= |field|
  {
  }

  lemma SizesAgree(a: bytes, c: bytes)
    ensures EqualIgnoringCase(a, c) ==> |a| == |c|
  {
  }

  lemma LoweredSize(name: bytes)
    ensures |LowerAll(name)| == |name|
  {
  }

  lemma ReservedHasNoCapitals(r: Reserved)
    ensures NoCapitals(NameOf(r))
  {
    hide NameOf, ValidName;
    ReservedNamesAreValid(r);
    if r == DataBase64 {
      assert NoCapitals(Ascii("data_base64"));
      SpelledDataBase64();
    } else {
      ValidHasNoCapitals(NameOf(r));
    }
  }

  lemma SpelledDataBase64()
    ensures NameOf(DataBase64) == Ascii("data_base64")
  {
  }

  lemma ValidHasNoCapitals(name: bytes)
    requires ValidName(name)
    ensures NoCapitals(name)
  {
  }

  // What a field does

  function Does(reason: Option<Errc>, c: Change): Result<Change> {
    if reason.Some? then Err(reason.value) else Ok(c)
  }

  /** What the field of a reserved name does with its value. */
  ghost function Meaning(b: Binding, r: Reserved, value: bytes): Result<Change> {
    match r
    case SpecVersion => Does(VersionTextReason(value), Unchanged)
    case Id => Does(TextReason(value, MissingRequiredAttribute), SetId(value))
    case Source => Does(TextReason(value, MissingRequiredAttribute), SetSource(value))
    case Type => Does(TextReason(value, MissingRequiredAttribute), SetKind(value))
    case DataSchema => Does(TextReason(value, InvalidAttributeValue), SetSchema(value))
    case Subject => Does(TextReason(value, InvalidAttributeValue), SetSubject(value))
    case DataContentType => if b.Nats? then Does(MediaTextReason(value), SetMediaType(value)) else Err(InvalidArgument)
    case Time =>
      (match Timestamp.Parse(value)
       case Err(e) => Err(e)
       case Ok(time) => Ok(SetTime(time)))
    case Data => Err(ReservedAttributeName)
    case DataBase64 => Err(InvalidAttributeName)
  }

  lemma DataIsReserved()
    ensures NameReason(NameOf(Data)) == Some(ReservedAttributeName)
    ensures NameReason(NameOf(DataBase64)) == Some(InvalidAttributeName)
  {
    ReservedNamesAreValid(Data);
    assert NameOf(DataBase64)[4] == 95;
  }

  /** The field of a reserved name, in whatever case the binding allows. */
  lemma ReservedFieldExactly(b: Binding, h: Header, r: Reserved)
    requires IsNamed(b, h.name, NameOf(r))
    ensures FieldChange(b, h)
            == match DecodeValue(b, h.value)
               case Err(e) => Err(e)
               case Ok(value) => Meaning(b, r, value)
  {
    hide IsNamed, CarriesPrefix, AttributeNameOf, DecodeValue, NameOf, MakeRequired, MakeOptional, MakeContentType, MakeVersion,
      TextReason, MediaTextReason, VersionTextReason, NameReason, MakeExtensionName, Timestamp.Parse, ReservedAs;
    NamedExactly(b, h.name, NameOf(r));
    ReservedAsName(r);
    if DecodeValue(b, h.value).Ok? {
      ChecksExactly(DecodeValue(b, h.value).value);
      NamesExactly(NameOf(r));
      DataIsReserved();
    }
  }

  /** The field of any other name stores an extension text, unless the name is none. */
  lemma ExtensionFieldExactly(b: Binding, h: Header, name: bytes)
    requires IsNamed(b, h.name, name) && forall r: Reserved :: name != NameOf(r)
    ensures FieldChange(b, h)
            == match DecodeValue(b, h.value)
               case Err(e) => Err(e)
               case Ok(value) => Does(NameReason(name), SetExtension(name, Text(value)))
  {
    hide IsNamed, CarriesPrefix, AttributeNameOf, DecodeValue, NameOf, MakeRequired, MakeOptional, MakeContentType, MakeVersion,
      NameReason, MakeExtensionName, Timestamp.Parse, ReservedAs;
    NamedExactly(b, h.name, name);
    NameOfReserved(name);
    NamesExactly(name);
  }

  /** A field of no attribute's name does nothing, whatever its value. */
  lemma ForeignFieldExactly(b: Binding, h: Header)
    requires forall name :: !IsNamed(b, h.name, name)
    ensures FieldChange(b, h) == Ok(Unchanged)
  {
    hide IsNamed, CarriesPrefix, AttributeNameOf;
    CarriedIsLonger(b, h.name);
    if CarriesPrefix(b, h.name) {
      NamedExactly(b, h.name, AttributeNameOf(b, h.name));
    }
  }

  // The case of names

  ghost predicate SameButCase(p: seq<Header>, q: seq<Header>) {
    |p| == |q| && forall i :: 0 <= i < |p| ==> p[i].value == q[i].value && EqualIgnoringCase(p[i].name, q[i].name)
  }

  lemma SameToBoth(p: bytes, q: bytes, name: bytes)
    requires EqualIgnoringCase(p, q)
    ensures EqualIgnoringCase(p, name) <==> EqualIgnoringCase(q, name)
    ensures EqualIgnoringCase(name, p) <==> EqualIgnoringCase(name, q)
  {
    hide Lower;
  }

  lemma {:induction false} LookupInAnyCase(p: seq<Header>, q: seq<Header>, name: bytes)
    requires SameButCase(p, q)
    ensures Lookup(CaseInsensitive, p, name) == Lookup(CaseInsensitive, q, name)
  {
    hide EqualIgnoringCase;
    if p != [] {
      SameToBoth(p[0].name, q[0].name, name);
      LookupInAnyCase(p[1..], q[1..], name);
    }
  }

  lemma RepeatsInAnyCase(p: seq<Header>, q: seq<Header>)
    requires SameButCase(p, q)
    ensures NoRepeats(CaseInsensitive, p) <==> NoRepeats(CaseInsensitive, q)
  {
    hide EqualIgnoringCase;
    forall i, j | 0 <= i < j < |p|
      ensures EqualIgnoringCase(p[i].name, p[j].name) <==> EqualIgnoringCase(q[i].name, q[j].name)
    {
      SameToBoth(p[i].name, q[i].name, p[j].name);
      SameToBoth(p[j].name, q[j].name, q[i].name);
    }
  }

  lemma FieldInAnyCase(b: Binding, x: Builder, h: Header, g: Header)
    requires b.Rule().CaseInsensitive? && h.value == g.value && EqualIgnoringCase(h.name, g.name)
    ensures Bindings.ReadField(b, x, h) == Bindings.ReadField(b, x, g)
  {
    hide ApplyAttribute, DecodeValue, CarriesPrefix, AttributeNameOf, EqualIgnoringCase;
    CarriedIsLonger(b, h.name);
    CarriedIsLonger(b, g.name);
    if CarriesPrefix(b, h.name) {
      var name := AttributeNameOf(b, h.name);
      NamedExactly(b, h.name, name);
      SameToBoth(h.name, g.name, b.Prefix() + name);
      NamedExactly(b, g.name, name);
    } else if CarriesPrefix(b, g.name) {
      var name := AttributeNameOf(b, g.name);
      NamedExactly(b, g.name, name);
      SameToBoth(h.name, g.name, b.Prefix() + name);
      NamedExactly(b, h.name, name);
    }
  }

  lemma {:induction false} FieldsInAnyCase(b: Binding, x: Builder, p: seq<Header>, q: seq<Header>)
    requires b.Rule().CaseInsensitive? && SameButCase(p, q)
    ensures ReadFields(b, x, p) == ReadFields(b, x, q)
    decreases |p|
  {
    hide Bindings.ReadField, EqualIgnoringCase;
    if p != [] {
      FieldInAnyCase(b, x, p[0], q[0]);
      if Bindings.ReadField(b, x, p[0]).Ok? {
        FieldsInAnyCase(b, Bindings.ReadField(b, x, p[0]).value, p[1..], q[1..]);
      }
    }
  }

  /** HTTP and NATS receive a message alike however its field names are cased. */
  lemma CaseDoesNotMatter(b: Binding, p: seq<Header>, q: seq<Header>, body: bytes, r: Receiver)
    requires b.Rule().CaseInsensitive? && SameButCase(p, q)
    ensures Received(b, p, body, r) == Received(b, q, body, r)
  {
    hide SameButCase, Lookup, NoRepeats, ReadFields, NameOf, StartsWith, ReadBody, MakeContentType;
    LookupInAnyCase(p, q, b.ContentTypeHeader());
    LookupInAnyCase(p, q, b.Prefix() + NameOf(SpecVersion));
    RepeatsInAnyCase(p, q);
    FieldsInAnyCase(b, EMPTY_BUILDER, p, q);
  }

  // The mode of a message

  /** The text starts with the literal, in any case where the binding ignores case. */
  predicate StartsByPlace(b: Binding, text: bytes, literal: bytes) {
    |literal| <= |text|
    && forall i :: 0 <= i < |literal| ==> (if b.Rule().CaseSensitive? then text[i] else Lower(text[i])) == literal[i]
  }

  lemma StartsExactly(b: Binding, text: bytes, literal: bytes)
    requires NoCapitals(literal)
    ensures StartsWith(b, text, literal) <==> StartsByPlace(b, text, literal)
  {
    if |literal| <= |text| {
      var head := text[..|literal|];
      assert forall i :: 0 <= i < |literal| ==> head[i] == text[i];
      if b.Rule().CaseInsensitive? {
        LoweredEqual(head, literal);
        if StartsByPlace(b, text, literal) {
          assert LowerAll(head) == literal;
        }
      } else if StartsByPlace(b, text, literal) {
        assert head == literal;
      }
    }
  }

  predicate IsAscii(s: string) {
    forall i :: 0 <= i < |s| ==> s[i] < 128 as char
  }

  lemma AsciiJoins(s: string, t: string)
    requires IsAscii(s) && IsAscii(t)
    ensures IsAscii(s + t) && Ascii(s + t) == Ascii(s) + Ascii(t)
  {
  }

  predicate NoCapital(s: string) {
    forall i :: 0 <= i < |s| ==> !('A' <= s[i] <= 'Z')
  }

  lemma AsciiHasNoCapitals(s: string)
    requires IsAscii(s) && NoCapital(s)
    ensures NoCapitals(Ascii(s))
  {
  }

  lemma CloudEventsText()
    ensures "application" + "/" + "cloudevents" == "application/cloudevents"
    ensures "application/cloudevents" + "-batch" == "application/cloudevents-batch"
  {
  }

  lemma CloudEventsIs()
    ensures CLOUDEVENTS == Ascii("application/cloudevents")
  {
    hide Ascii, BATCH;
    AsciiJoins("application", "/");
    AsciiJoins("application" + "/", "cloudevents");
    CloudEventsText();
    Slash();
  }

  lemma BatchIs()
    ensures BATCH == Ascii("application/cloudevents-batch")
  {
    hide Ascii, CLOUDEVENTS;
    CloudEventsIs();
    AsciiJoins("application/cloudevents", "-batch");
    CloudEventsText();
  }

  /** What the content types of structured messages and of batches start with. */
  lemma MediaTypesAre()
    ensures CLOUDEVENTS == Ascii("application/cloudevents") && NoCapitals(CLOUDEVENTS)
    ensures BATCH == Ascii("application/cloudevents-batch") && NoCapitals(BATCH)
  {
    hide Ascii, CLOUDEVENTS, BATCH, NoCapitals;
    CloudEventsIs();
    BatchIs();
    AsciiHasNoCapitals("application/cloudevents");
    AsciiHasNoCapitals("application/cloudevents-batch");
  }

  lemma Slash()
    ensures Ascii("/") == ['/' as int]
  {
  }

  /** The name of the content type's field: bindings that heed case write it in lower case. */
  lemma ContentTypeIs()
    ensures Kafka.ContentTypeHeader() == Ascii("content-type")
    ensures forall b: Binding :: b.OfMqtt() ==> b.ContentTypeHeader() == Ascii("content-type")
    ensures forall b: Binding :: b.Rule().CaseInsensitive? ==> b.ContentTypeHeader() == Ascii("Content-Type")
    ensures forall b: Binding :: b.Rule().CaseInsensitive? <==> b.Http? || b.HttpLiteral? || b.Nats?
  {
  }

  /** How a message is read, by the start of its content type. */
  lemma ModeExactly(b: Binding, entries: seq<Header>)
    ensures var declared := Lookup(b.Rule(), entries, b.ContentTypeHeader());
            DetectMode(b, entries)
            == if declared.None? then BinaryMode
               else if !b.Nats? && StartsByPlace(b, declared.value, BATCH) then Batched
               else if StartsByPlace(b, declared.value, CLOUDEVENTS) then Structured
               else BinaryMode
  {
    hide Lookup, StartsWith, StartsByPlace, Ascii, NoCapitals, CLOUDEVENTS, BATCH;
    MediaTypesAre();
    var declared := Lookup(b.Rule(), entries, b.ContentTypeHeader());
    if declared.Some? {
      StartsExactly(b, declared.value, BATCH);
      StartsExactly(b, declared.value, CLOUDEVENTS);
    }
  }

  // Which lists of fields are accepted, and what they say

  /** The field at i is the first that is refused. */
  ghost predicate FirstRefused(b: Binding, entries: seq<Header>, i: nat, e: Errc) {
    i < |entries| && FieldChange(b, entries[i]) == Err(e) && forall j :: 0 <= j < i ==> FieldChange(b, entries[j]).Ok?
  }

  lemma {:induction false} RefusalIsFirst(b: Binding, x: Builder, entries: seq<Header>)
    ensures ReadFields(b, x, entries).Err? ==> exists i: nat :: FirstRefused(b, entries, i, ReadFields(b, x, entries).error)
    decreases |entries|
  {
    hide FieldChange, Bindings.ReadField;
    if entries != [] {
      ReadFieldIsChange(b, x, entries[0]);
      var all := ReadFields(b, x, entries);
      if FieldChange(b, entries[0]).Err? {
        assert FirstRefused(b, entries, 0, FieldChange(b, entries[0]).error);
      } else if all.Err? {
        var next := Bindings.ReadField(b, x, entries[0]).value;
        RefusalIsFirst(b, next, entries[1..]);
        var i: nat :| FirstRefused(b, entries[1..], i, all.error);
        forall j | 0 <= j < i + 1
          ensures FieldChange(b, entries[j]).Ok?
        {
          if j > 0 {
            assert entries[1..][j - 1] == entries[j];
          }
        }
        assert FirstRefused(b, entries, i + 1, all.error);
      }
    }
  }

  /** A list is accepted exactly when no two fields share a name and each field alone is accepted; a shared
      name is refused before anything is read, and otherwise the first field refused gives the error. */
  lemma AttributesAcceptedExactly(b: Binding, entries: seq<Header>)
    ensures var r := ReadAttributes(b, entries);
            && (!NoRepeats(b.Rule(), entries) ==> r == Err(InvalidArgument))
            && (r.Ok? <==> NoRepeats(b.Rule(), entries) && forall h :: h in entries ==> FieldChange(b, h).Ok?)
            && (NoRepeats(b.Rule(), entries) && r.Err? ==> exists i: nat :: FirstRefused(b, entries, i, r.error))
  {
    hide NoRepeats, ReadFields, FieldChange, FirstRefused;
    AcceptedOneByOne(b, EMPTY_BUILDER, entries);
    RefusalIsFirst(b, EMPTY_BUILDER, entries);
  }

  /** Some field of the list makes the change. */
  ghost predicate Makes(b: Binding, entries: seq<Header>, c: Change) {
    exists h :: h in entries && FieldChange(b, h) == Ok(c)
  }

  /** Whatever y holds that x did not was brought by a field. */
  ghost predicate Traced(b: Binding, entries: seq<Header>, x: Builder, y: Builder) {
    && (y.id == x.id || (y.id.Some? && Makes(b, entries, SetId(y.id.value))))
    && (y.source == x.source || (y.source.Some? && Makes(b, entries, SetSource(y.source.value))))
    && (y.kind == x.kind || (y.kind.Some? && Makes(b, entries, SetKind(y.kind.value))))
    && (y.rest.datacontenttype == x.rest.datacontenttype
        || (y.rest.datacontenttype.Some? && Makes(b, entries, SetMediaType(y.rest.datacontenttype.value))))
    && (y.rest.dataschema == x.rest.dataschema
        || (y.rest.dataschema.Some? && Makes(b, entries, SetSchema(y.rest.dataschema.value))))
    && (y.rest.subject == x.rest.subject || (y.rest.subject.Some? && Makes(b, entries, SetSubject(y.rest.subject.value))))
    && (y.rest.time == x.rest.time || (y.rest.time.Some? && Makes(b, entries, SetTime(y.rest.time.value))))
    && y.rest.data == x.rest.data
    && forall k :: k in y.rest.extensions ==>
         (k in x.rest.extensions && y.rest.extensions[k] == x.rest.extensions[k])
         || Makes(b, entries, SetExtension(k, y.rest.extensions[k]))
  }

  lemma OneChangeIsTraced(b: Binding, h: Header, x: Builder)
    requires FieldChange(b, h).Ok?
    ensures Traced(b, [h], x, Changed(x, FieldChange(b, h).value))
  {
    hide FieldChange, Makes, Traced, Changed;
    var c := FieldChange(b, h).value;
    ItsOwnChange(b, h);
    if c.SetExtension? {
      ExtensionChangeIsTraced(b, [h], x, c);
    } else {
      PartChangeIsTraced(b, [h], x, c);
    }
  }

  lemma ExtensionChangeIsTraced(b: Binding, entries: seq<Header>, x: Builder, c: Change)
    requires Makes(b, entries, c) && c.SetExtension?
    ensures Traced(b, entries, x, Changed(x, c))
  {
    hide Makes;
  }

  lemma PartChangeIsTraced(b: Binding, entries: seq<Header>, x: Builder, c: Change)
    requires Makes(b, entries, c) && !c.SetExtension?
    ensures Traced(b, entries, x, Changed(x, c))
  {
    hide Makes;
  }

  lemma ItsOwnChange(b: Binding, h: Header)
    requires FieldChange(b, h).Ok?
    ensures Makes(b, [h], FieldChange(b, h).value)
  {
    hide FieldChange;
    assert h in [h];
  }

  lemma MakesMore(b: Binding, few: seq<Header>, many: seq<Header>)
    requires forall h :: h in few ==> h in many
    ensures forall c :: Makes(b, few, c) ==> Makes(b, many, c)
  {
    hide FieldChange;
    forall c | Makes(b, few, c)
      ensures Makes(b, many, c)
    {
      var h :| h in few && FieldChange(b, h) == Ok(c);
      assert h in many;
    }
  }

  lemma TracedOn(b: Binding, first: Header, rest: seq<Header>, x: Builder, y: Builder, z: Builder)
    requires Traced(b, [first], x, y) && Traced(b, rest, y, z)
    ensures Traced(b, [first] + rest, x, z)
  {
    hide Makes;
    MakesMore(b, [first], [first] + rest);
    MakesMore(b, rest, [first] + rest);
  }

  lemma {:induction false} FieldsAreTraced(b: Binding, x: Builder, entries: seq<Header>)
    requires ReadFields(b, x, entries).Ok?
    ensures Traced(b, entries, x, ReadFields(b, x, entries).value)
    decreases |entries|
  {
    hide FieldChange, Bindings.ReadField, Traced, Changed;
    if entries == [] {
      NothingTraced(b, x);
    } else {
      ReadFieldIsChange(b, x, entries[0]);
      OneChangeIsTraced(b, entries[0], x);
      var next := Bindings.ReadField(b, x, entries[0]).value;
      FieldsAreTraced(b, next, entries[1..]);
      TracedOn(b, entries[0], entries[1..], x, next, ReadFields(b, x, entries).value);
      assert entries == [entries[0]] + entries[1..];
    }
  }

  lemma NothingTraced(b: Binding, x: Builder)
    ensures Traced(b, [], x, x)
  {
    hide Makes;
  }

  /** Some field of the list is the attribute's. */
  ghost predicate HasField(b: Binding, entries: seq<Header>, name: bytes) {
    exists h :: h in entries && IsNamed(b, h.name, name)
  }

  lemma MadeByName(b: Binding, entries: seq<Header>, c: Change, name: bytes)
    requires Makes(b, entries, c) && c != Unchanged && forall n :: MadeUnder(c, n) ==> n == name
    ensures HasField(b, entries, name)
  {
    hide FieldChange, IsNamed;
    var h :| h in entries && FieldChange(b, h) == Ok(c);
    ChangeHasName(b, h, c, name);
  }

  lemma ChangeHasName(b: Binding, h: Header, c: Change, name: bytes)
    requires FieldChange(b, h) == Ok(c) && c != Unchanged && forall n :: MadeUnder(c, n) ==> n == name
    ensures IsNamed(b, h.name, name)
  {
    hide DecodeValue, ChangeOf, CarriesPrefix, AttributeNameOf, IsNamed, MadeUnder;
    CarriedIsLonger(b, h.name);
    var attribute := AttributeNameOf(b, h.name);
    ChangeIsMadeUnder(b, attribute, DecodeValue(b, h.value).value);
    NamedExactly(b, h.name, name);
  }

  /** The value that an accepted field of a name has been decoded to. */
  function Told(b: Binding, h: Header): bytes {
    if DecodeValue(b, h.value).Ok? then DecodeValue(b, h.value).value else []
  }

  /** The event says what the field of a reserved name has been decoded to. */
  predicate Tells(b: Binding, x: Builder, r: Reserved, value: bytes) {
    match r
    case SpecVersion => value == Ascii("1.0")
    case Id => x.id == Some(value)
    case Source => x.source == Some(value)
    case Type => x.kind == Some(value)
    case DataContentType => b.Nats? && x.rest.datacontenttype == Some(value)
    case DataSchema => x.rest.dataschema == Some(value)
    case Subject => x.rest.subject == Some(value)
    case Time => Timestamp.Parse(value).Ok? && x.rest.time == Some(Timestamp.Parse(value).value)
    case _ => false
  }

  predicate IsSet(x: Builder, r: Reserved) {
    match r
    case Id => x.id.Some?
    case Source => x.source.Some?
    case Type => x.kind.Some?
    case DataContentType => x.rest.datacontenttype.Some?
    case DataSchema => x.rest.dataschema.Some?
    case Subject => x.rest.subject.Some?
    case Time => x.rest.time.Some?
    case _ => false
  }

  lemma FieldTells(b: Binding, entries: seq<Header>, h: Header, r: Reserved)
    requires ReadAttributes(b, entries).Ok? && h in entries && IsNamed(b, h.name, NameOf(r))
    ensures Tells(b, ReadAttributes(b, entries).value, r, Told(b, h))
  {
    hide ReadAttributes, DecodeValue, AttributeNameOf, CarriesPrefix, IsNamed, NameOf, ReservedAs, Timestamp.Parse, ValidName, Ascii;
    NamedExactly(b, h.name, NameOf(r));
    ReservedAsName(r);
    FieldIsAttribute(b, entries, h);
  }

  lemma SetByField(b: Binding, entries: seq<Header>, x: Builder, r: Reserved)
    requires Traced(b, entries, EMPTY_BUILDER, x) && IsSet(x, r)
    ensures HasField(b, entries, NameOf(r))
  {
    hide NameOf, Makes, HasField;
    match r
    case Id => MadeByName(b, entries, SetId(x.id.value), NameOf(r));
    case Source => MadeByName(b, entries, SetSource(x.source.value), NameOf(r));
    case Type => MadeByName(b, entries, SetKind(x.kind.value), NameOf(r));
    case DataContentType => MadeByName(b, entries, SetMediaType(x.rest.datacontenttype.value), NameOf(r));
    case DataSchema => MadeByName(b, entries, SetSchema(x.rest.dataschema.value), NameOf(r));
    case Subject => MadeByName(b, entries, SetSubject(x.rest.subject.value), NameOf(r));
    case Time => MadeByName(b, entries, SetTime(x.rest.time.value), NameOf(r));
    case _ =>
  }

  lemma TellingSets(b: Binding, x: Builder, r: Reserved, value: bytes)
    requires Tells(b, x, r, value) && r != SpecVersion
    ensures IsSet(x, r)
  {
    hide Timestamp.Parse, Ascii;
  }

  /** What an accepted list says of the event, by the names of its fields: an attribute is what the field of
      its name has been decoded to, and is unset without one. */
  lemma AttributesByName(b: Binding, entries: seq<Header>, r: Reserved)
    requires ReadAttributes(b, entries).Ok?
    ensures var x := ReadAttributes(b, entries).value;
            && (r != SpecVersion ==> (IsSet(x, r) <==> HasField(b, entries, NameOf(r))))
            && forall h :: h in entries && IsNamed(b, h.name, NameOf(r)) ==> Tells(b, x, r, Told(b, h))
  {
    hide IsNamed, NameOf, Told, Tells, IsSet, Traced, NoRepeats, ReadFields;
    var x := ReadAttributes(b, entries).value;
    FieldsAreTraced(b, EMPTY_BUILDER, entries);
    forall h | h in entries && IsNamed(b, h.name, NameOf(r))
      ensures Tells(b, x, r, Told(b, h))
    {
      FieldTells(b, entries, h, r);
    }
    if r != SpecVersion {
      if IsSet(x, r) {
        SetByField(b, entries, x, r);
      }
      if HasField(b, entries, NameOf(r)) {
        var h :| h in entries && IsNamed(b, h.name, NameOf(r));
        TellingSets(b, x, r, Told(b, h));
      }
    }
  }

  /** The extensions are the fields of all other names, each as the text it has been decoded to. */
  lemma ExtensionsByName(b: Binding, entries: seq<Header>, name: bytes)
    requires ReadAttributes(b, entries).Ok? && forall r: Reserved :: name != NameOf(r)
    ensures var extensions := ReadAttributes(b, entries).value.rest.extensions;
            && (name in extensions <==> HasField(b, entries, name))
            && forall h :: h in entries && IsNamed(b, h.name, name) ==> name in extensions && extensions[name] == Text(Told(b, h))
  {
    hide IsNamed, NameOf, Told, Traced, NoRepeats, ReadFields, Makes;
    var x := ReadAttributes(b, entries).value;
    FieldsAreTraced(b, EMPTY_BUILDER, entries);
    forall h | h in entries && IsNamed(b, h.name, name)
      ensures name in x.rest.extensions && x.rest.extensions[name] == Text(Told(b, h))
    {
      ExtensionTells(b, entries, h, name);
    }
    if name in x.rest.extensions {
      ExtensionTraced(b, entries, x, name);
      MadeByName(b, entries, SetExtension(name, x.rest.extensions[name]), name);
    }
  }

  lemma ExtensionTraced(b: Binding, entries: seq<Header>, x: Builder, name: bytes)
    requires Traced(b, entries, EMPTY_BUILDER, x) && name in x.rest.extensions
    ensures Makes(b, entries, SetExtension(name, x.rest.extensions[name]))
  {
    hide Makes;
  }

  lemma ExtensionTells(b: Binding, entries: seq<Header>, h: Header, name: bytes)
    requires ReadAttributes(b, entries).Ok? && h in entries && IsNamed(b, h.name, name) && forall r: Reserved :: name != NameOf(r)
    ensures var extensions := ReadAttributes(b, entries).value.rest.extensions;
            name in extensions && extensions[name] == Text(Told(b, h))
  {
    hide ReadAttributes, DecodeValue, AttributeNameOf, CarriesPrefix, IsNamed, NameOf, ReservedAs, Timestamp.Parse, ValidName;
    NamedExactly(b, h.name, name);
    NameOfReserved(name);
    FieldIsAttribute(b, entries, h);
  }

  // MQTT

  /** What a property is by its name: an attribute's when it is the prefix and a name of lower-case letters
      and digits; but the plain name datacontenttype is a copy of the content type. */
  lemma KindExactly(b: Binding, name: bytes)
    requires b.OfMqtt()
    ensures var k := |b.Prefix()|;
            KindOf(b, name)
            == if b.Mqtt? && name == NameOf(DataContentType) then MediaTypeCopy
               else if k < |name| && name[..k] == b.Prefix()
                       && (forall i :: k <= i < |name| ==> 97 <= name[i] <= 122 || 48 <= name[i] <= 57) then Attribute
               else Foreign
  {
    hide NameOf, ValidName;
    ReservedNamesAreValid(DataContentType);
    var k := |b.Prefix()|;
    if k <= |name| {
      ValidByPlace(name, k);
      assert k == 0 ==> name[k..] == name && name[..k] == b.Prefix();
    }
  }

  lemma ValidByPlace(name: bytes, k: nat)
    requires k <= |name|
    ensures ValidName(name[k..]) <==> k < |name| && forall i :: k <= i < |name| ==> 97 <= name[i] <= 122 || 48 <= name[i] <= 57
  {
    var rest := name[k..];
    assert forall i :: k <= i < |name| ==> name[i] == rest[i - k];
  }

  function Copies(b: Binding, entries: seq<Header>): nat {
    if entries == [] then 0 else (if KindOf(b, entries[0].name).MediaTypeCopy? then 1 else 0) + Copies(b, entries[1..])
  }

  /** The properties read are the attributes' in their order. There may be one copy of the content type, and
      it must agree with it. */
  lemma {:induction false} PropertiesExactly(b: Binding, declared: Option<bytes>, seen: bool, entries: seq<Header>)
    ensures AttributeFields(b, declared, seen, entries)
            == if Copies(b, entries) <= (if seen then 0 else 1) && CopiesAgree(b, declared, entries)
               then Ok(OnlyAttributes(b, entries)) else Err(InvalidArgument)
    decreases |entries|
  {
    hide KindOf, CopiesAgree;
    NoCopiesAgree(b, declared);
    if entries != [] {
      var h, rest := entries[0], entries[1..];
      assert entries == [h] + rest;
      CopiesAgreeTail(b, declared, h, rest);
      PropertiesExactly(b, declared, seen || KindOf(b, h.name).MediaTypeCopy?, rest);
      assert [] + OnlyAttributes(b, rest) == OnlyAttributes(b, rest);
    }
  }

  // Whole messages

  /** The fields that are read as attributes. */
  function Relevant(b: Binding, entries: seq<Header>): seq<Header> {
    if b.OfMqtt() then OnlyAttributes(b, entries) else entries
  }

  /** The copies of the content type that MQTT may carry are as they must be. */
  ghost predicate CopiesAreRight(b: Binding, entries: seq<Header>) {
    b.OfMqtt() ==> Copies(b, entries) <= 1 && CopiesAgree(b, Lookup(b.Rule(), entries, b.ContentTypeHeader()), entries)
  }

  /** The media type the message declares: a field of NATS, and the content type of the others. */
  ghost function MediaTypeOf(b: Binding, entries: seq<Header>): Option<bytes>
    requires ReadAttributes(b, Relevant(b, entries)).Ok?
  {
    if b.Nats? then ReadAttributes(b, entries).value.rest.datacontenttype else Lookup(b.Rule(), entries, b.ContentTypeHeader())
  }

  lemma MadeMediaType(text: bytes)
    ensures MakeContentType(text) == Unless(MediaTextReason(text), text)
  {
    hide MakeContentType, MediaTextReason;
    ChecksExactly(text);
  }

  /** The reading of the fields of a message, told without it. */
  lemma ContextExactly(b: Binding, entries: seq<Header>)
    ensures var attributes, declared := ReadAttributes(b, Relevant(b, entries)), Lookup(b.Rule(), entries, b.ContentTypeHeader());
            Bindings.ReadContext(b, entries)
            == if !CopiesAreRight(b, entries) then Err(InvalidArgument)
               else if attributes.Err? || b.Nats? || declared.None? then attributes
               else if MediaTextReason(declared.value).Some? then Err(MediaTextReason(declared.value).value)
               else Ok(attributes.value.(rest := attributes.value.rest.(datacontenttype := declared)))
  {
    hide ReadAttributes, Lookup, MakeContentType, MediaTextReason, AttributeFields, OnlyAttributes, CopiesAgree, Copies;
    var declared := Lookup(b.Rule(), entries, b.ContentTypeHeader());
    if b.OfMqtt() {
      PropertiesExactly(b, declared, false, entries);
    }
    if declared.Some? {
      MadeMediaType(declared.value);
    }
  }

  /** A binary-mode message, told without the receiver. It is an event exactly when it has a version field;
      MQTT's copies of the content type are right; its attribute fields are accepted; the media type it
      declares is one; its body can be read; and it has an id, a source and a type. The first of these that
      fails gives the error. */
  lemma MessageAcceptedExactly(b: Binding, entries: seq<Header>, body: bytes, r: Receiver)
    requires DetectMode(b, entries) == BinaryMode && (b.OfMqtt() ==> CountNamed(entries, b.ContentTypeHeader()) <= 1)
    ensures var received, attributes := Received(b, entries, body, r), ReadAttributes(b, Relevant(b, entries));
            if !HasField(b, entries, NameOf(SpecVersion)) then received == Err(NotACloudEvent)
            else if !CopiesAreRight(b, entries) then received == Err(InvalidArgument)
            else if attributes.Err? then received == Err(attributes.error)
            else
              var mediaType := MediaTypeOf(b, entries);
              var payload := ReadBody(body, mediaType, r);
              if !b.Nats? && mediaType.Some? && MediaTextReason(mediaType.value).Some?
              then received == Err(MediaTextReason(mediaType.value).value)
              else if payload.Err? then received == Err(payload.error)
              else if !HasField(b, Relevant(b, entries), NameOf(Id)) || !HasField(b, Relevant(b, entries), NameOf(Source))
                      || !HasField(b, Relevant(b, entries), NameOf(Type))
              then received == Err(MissingRequiredAttribute)
              else
                && received.Ok?
                && Some(received.value.id) == attributes.value.id && Some(received.value.source) == attributes.value.source
                && Some(received.value.kind) == attributes.value.kind
                && received.value.rest == attributes.value.rest.(datacontenttype := mediaType, data := payload.value)
  {
    hide DetectMode, CountNamed, ReadAttributes, Lookup, MediaTextReason, Relevant, CopiesAreRight, HasField, NameOf, ReadBody,
      Bindings.ReadContext;
    VersionIsLooked(b, entries);
    ContextExactly(b, entries);
    if ReadAttributes(b, Relevant(b, entries)).Ok? {
      AttributesByName(b, Relevant(b, entries), Id);
      AttributesByName(b, Relevant(b, entries), Source);
      AttributesByName(b, Relevant(b, entries), Type);
      MediaTypeStays(b, entries);
    }
  }

  lemma VersionIsLooked(b: Binding, entries: seq<Header>)
    ensures Lookup(b.Rule(), entries, b.Prefix() + NameOf(SpecVersion)).Some? <==> HasField(b, entries, NameOf(SpecVersion))
  {
    hide Lookup, NameOf, Same;
    ReservedHasNoCapitals(SpecVersion);
    LookupAbsent(b.Rule(), entries, b.Prefix() + NameOf(SpecVersion));
  }

  /** Only NATS reads a media type from a field, and only it reads all of its fields. */
  lemma MediaTypeStays(b: Binding, entries: seq<Header>)
    requires ReadAttributes(b, Relevant(b, entries)).Ok?
    ensures b.Nats? ==> Relevant(b, entries) == entries
    ensures !b.Nats? ==> ReadAttributes(b, Relevant(b, entries)).value.rest.datacontenttype.None?
  {
    hide ReadAttributes, OnlyAttributes, HasField, NameOf;
    AttributesByName(b, Relevant(b, entries), DataContentType);
    if !b.Nats? && HasField(b, Relevant(b, entries), NameOf(DataContentType)) {
      NoMediaField(b, Relevant(b, entries));
    }
  }

  lemma NoMediaField(b: Binding, entries: seq<Header>)
    requires ReadAttributes(b, entries).Ok? && !b.Nats?
    ensures !HasField(b, entries, NameOf(DataContentType))
  {
    hide ReadAttributes, IsNamed, NameOf, Told;
    AttributesByName(b, entries, DataContentType);
  }
}
