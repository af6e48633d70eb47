/** The event that comes back from a binary-mode message, for every binding. */
module BindingRoundTrip {
  import opened Wrappers
  import opened JsonDom
  import opened Attributes
  import opened Headers
  import opened Bindings
  import opened BindingLaws
  import opened JsonFormat
  import BindingOrder
  import BindingReads
  import Order
  import Percent
  import RenderedText
  import Timestamp
  import TimestampLaws
  import Utf8

  // The fields, read back

  function ApplyAll(b: Binding, x: Builder, pairs: seq<Header>): Result<Builder>
    decreases |pairs|
  {
    if pairs == [] then Ok(x) else
    var next :- ApplyAttribute(b, x, pairs[0].name, pairs[0].value);
    ApplyAll(b, next, pairs[1..])
  }

  ghost predicate WellFormedPairs(pairs: seq<Header>) {
    forall p :: p in pairs ==> Utf8.WellFormed(p.value)
  }

  lemma FieldReturns(b: Binding, x: Builder, p: Header)
    requires ValidName(p.name) && EncodeValue(b, p.value).Ok?
    ensures ReadField(b, x, Header(b.Prefix() + p.name, EncodeValue(b, p.value).value))
            == if Utf8.WellFormed(p.value) then ApplyAttribute(b, x, p.name, p.value) else Err(InvalidUtf8)
  {
    hide EncodeValue, DecodeValue, CarriesPrefix, AttributeNameOf, ApplyAttribute, ValidName;
    ValueReturns(b, p.value);
    NameReturns(b, p.name);
  }

  lemma {:induction false} FieldsReturn(b: Binding, x: Builder, pairs: seq<Header>)
    requires AllEncode(b, pairs) && Named(pairs)
    ensures WellFormedPairs(pairs) ==> ReadFields(b, x, Fields(b, pairs)) == ApplyAll(b, x, pairs)
    ensures !WellFormedPairs(pairs) ==> ReadFields(b, x, Fields(b, pairs)).Err?
    decreases |pairs|
  {
    hide EncodeValue, ValidName, ReadField, ApplyAttribute;
    if pairs != [] {
      var p, rest := pairs[0], pairs[1..];
      assert pairs == [p] + rest;
      assert p in pairs;
      FieldReturns(b, x, p);
      var fields := Fields(b, pairs);
      assert fields[0] == Header(b.Prefix() + p.name, EncodeValue(b, p.value).value) && fields[1..] == Fields(b, rest);
      var next := ApplyAttribute(b, x, p.name, p.value);
      if next.Ok? {
        FieldsReturn(b, next.value, rest);
      }
    }
  }

  lemma {:induction false} ReadSplit(b: Binding, x: Builder, a: seq<Header>, c: seq<Header>)
    ensures ReadFields(b, x, a + c)
            == if ReadFields(b, x, a).Err? then ReadFields(b, x, a) else ReadFields(b, ReadFields(b, x, a).value, c)
    decreases |a|
  {
    hide ReadField;
    if a == [] {
      assert a + c == c;
    } else {
      assert (a + c)[0] == a[0] && (a + c)[1..] == a[1..] + c;
      if ReadField(b, x, a[0]).Ok? {
        ReadSplit(b, ReadField(b, x, a[0]).value, a[1..], c);
      }
    }
  }

  // The attributes, applied one after the other

  lemma {:induction false} ApplySplit(b: Binding, x: Builder, a: seq<Header>, c: seq<Header>)
    ensures ApplyAll(b, x, a + c)
            == if ApplyAll(b, x, a).Err? then ApplyAll(b, x, a) else ApplyAll(b, ApplyAll(b, x, a).value, c)
    decreases |a|
  {
    hide ApplyAttribute;
    if a == [] {
      assert a + c == c;
    } else {
      assert (a + c)[0] == a[0] && (a + c)[1..] == a[1..] + c;
      if ApplyAttribute(b, x, a[0].name, a[0].value).Ok? {
        ApplySplit(b, ApplyAttribute(b, x, a[0].name, a[0].value).value, a[1..], c);
      }
    }
  }

  lemma ApplyNext(b: Binding, x: Builder, before: seq<Header>, p: Header)
    requires ApplyAll(b, x, before).Ok?
    ensures ApplyAll(b, x, before + [p]) == ApplyAttribute(b, ApplyAll(b, x, before).value, p.name, p.value)
  {
    hide ApplyAttribute;
    ApplySplit(b, x, before, [p]);
    assert [p][1..] == [];
  }

  lemma ApplyReserved(b: Binding, x: Builder, r: Reserved, text: bytes, c: Change)
    requires match r
             case SpecVersion => text == VERSION && c == Unchanged
             case Id => MakeRequired(text) == Ok(text) && c == SetId(text)
             case Source => MakeRequired(text) == Ok(text) && c == SetSource(text)
             case Type => MakeRequired(text) == Ok(text) && c == SetKind(text)
             case DataSchema => MakeOptional(text) == Ok(text) && c == SetSchema(text)
             case Subject => MakeOptional(text) == Ok(text) && c == SetSubject(text)
             case DataContentType => b.ContentTypeIsAttribute() && MakeContentType(text) == Ok(text) && c == SetMediaType(text)
             case Time => Timestamp.Parse(text).Ok? && c == SetTime(Timestamp.Parse(text).value)
             case _ => false
    ensures ApplyAttribute(b, x, NameOf(r), text) == Ok(Changed(x, c))
  {
    hide NameOf, ReservedAs, Timestamp.Parse, CheckText, Subtype, VERSION, Changed;
    ReservedAsName(r);
  }

  lemma ApplyThen(b: Binding, x: Builder, before: seq<Header>, y: Builder, p: Header, z: Builder)
    requires ApplyAll(b, x, before) == Ok(y) && ApplyAttribute(b, y, p.name, p.value) == Ok(z)
    ensures ApplyAll(b, x, before + [p]) == Ok(z)
  {
    hide ApplyAll, ApplyAttribute;
    ApplyNext(b, x, before, p);
  }

  lemma ApplyVersion(b: Binding, x: Builder)
    ensures ApplyAttribute(b, x, NameOf(SpecVersion), VERSION) == Ok(x)
  {
    hide NameOf, VERSION, ApplyAttribute;
    ApplyReserved(b, x, SpecVersion, VERSION, Unchanged);
  }

  lemma ApplyId(b: Binding, x: Builder, text: bytes)
    requires MakeRequired(text).Ok?
    ensures ApplyAttribute(b, x, NameOf(Id), text) == Ok(x.(id := Some(text)))
  {
    hide NameOf, MakeRequired, ApplyAttribute;
    MadeIsItself(text);
    ApplyReserved(b, x, Id, text, SetId(text));
  }

  lemma ApplySource(b: Binding, x: Builder, text: bytes)
    requires MakeRequired(text).Ok?
    ensures ApplyAttribute(b, x, NameOf(Source), text) == Ok(x.(source := Some(text)))
  {
    hide NameOf, MakeRequired, ApplyAttribute;
    MadeIsItself(text);
    ApplyReserved(b, x, Source, text, SetSource(text));
  }

  lemma ApplyKind(b: Binding, x: Builder, text: bytes)
    requires MakeRequired(text).Ok?
    ensures ApplyAttribute(b, x, NameOf(Type), text) == Ok(x.(kind := Some(text)))
  {
    hide NameOf, MakeRequired, ApplyAttribute;
    MadeIsItself(text);
    ApplyReserved(b, x, Type, text, SetKind(text));
  }

  lemma ApplyRequired(b: Binding, e: Event)
    requires ValidEvent(e)
    ensures ApplyAll(b, EMPTY_BUILDER, RequiredPairs(e)) == Ok(Builder(Some(e.id), Some(e.source), Some(e.kind), NO_OPTIONS))
  {
    hide ApplyAll, ApplyAttribute, NameOf, MakeRequired, ValidOptions, VERSION, NO_OPTIONS;
    var x := EMPTY_BUILDER;
    var x1 := x.(id := Some(e.id));
    var x2 := x1.(source := Some(e.source));
    ApplyNothing(b, x);
    ApplyVersion(b, x);
    ApplyId(b, x, e.id);
    ApplySource(b, x1, e.source);
    ApplyKind(b, x2, e.kind);
    var version, id, source, kind := Pair(SpecVersion, VERSION), Pair(Id, e.id), Pair(Source, e.source), Pair(Type, e.kind);
    ApplyThen(b, x, [], x, version, x);
    ApplyThen(b, x, [] + [version], x, id, x1);
    ApplyThen(b, x, [] + [version] + [id], x1, source, x2);
    ApplyThen(b, x, [] + [version] + [id] + [source], x2, kind, x2.(kind := Some(e.kind)));
    assert [] + [version] + [id] + [source] + [kind] == RequiredPairs(e);
  }

  lemma ApplyNothing(b: Binding, x: Builder)
    ensures ApplyAll(b, x, []) == Ok(x)
  {
  }

  /** An optional attribute after the pairs before it. */
  lemma ApplyOptional(b: Binding, x: Builder, before: seq<Header>, r: Reserved, text: Option<bytes>)
    requires r.DataSchema? || r.Subject? || (r.DataContentType? && b.ContentTypeIsAttribute())
    requires ApplyAll(b, x, before).Ok?
    requires text.Some? ==> (if r.DataContentType? then MakeContentType(text.value).Ok? else MakeOptional(text.value).Ok?)
    ensures var y := ApplyAll(b, x, before).value;
            ApplyAll(b, x, before + OptionalPair(r, text))
            == Ok(if text.None? then y
                  else if r.DataSchema? then Changed(y, SetSchema(text.value))
                  else if r.Subject? then Changed(y, SetSubject(text.value))
                  else Changed(y, SetMediaType(text.value)))
  {
    hide ApplyAll, ApplyAttribute, NameOf, MakeOptional, MakeContentType, Changed;
    if text.Some? {
      MadeIsItself(text.value);
      ApplyNext(b, x, before, Pair(r, text.value));
      ApplyReserved(b, ApplyAll(b, x, before).value, r, text.value,
                    if r.DataSchema? then SetSchema(text.value) else if r.Subject? then SetSubject(text.value)
                    else SetMediaType(text.value));
    } else {
      assert before + [] == before;
    }
  }

  /** What the time comes back as. */
  function StoredTime(o: Options): Result<Option<Timestamp.Timestamp>>
    requires RenderableOptions(o)
  {
    if o.time.None? then Ok(None) else
    var parsed :- Timestamp.Parse(Timestamp.Render(o.time.value));
    Ok(Some(parsed))
  }

  lemma TimeReturns(o: Options)
    requires RenderableOptions(o)
    ensures StoredTime(o) == Ok(o.time) <==> (o.time.Some? ==> TimestampLaws.Exact(o.time.value))
  {
    hide Timestamp.Render, Timestamp.Parse, TimestampLaws.Exact, Timestamp.CanRender;
    if o.time.Some? {
      TimestampLaws.RenderParsesExactly(o.time.value);
    }
  }

  lemma ApplyTime(b: Binding, x: Builder, before: seq<Header>, o: Options)
    requires RenderableOptions(o) && ApplyAll(b, x, before).Ok? && ApplyAll(b, x, before).value.rest.time.None?
    ensures var y, t := ApplyAll(b, x, before).value, StoredTime(o);
            ApplyAll(b, x, before + OptionalPair(Time, TimeText(o)))
            == if t.Err? then Err(t.error) else Ok(y.(rest := y.rest.(time := t.value)))
  {
    hide ApplyAll, NameOf, Timestamp.Render, Timestamp.Parse, RenderableOptions, ReservedAs;
    ReservedAsName(Time);
    if o.time.Some? {
      TimeTextIs(o);
      ApplyNext(b, x, before, Pair(Time, TimeText(o).value));
    } else {
      assert before + [] == before;
    }
  }

  function ContextBuilder(e: Event, time: Option<Timestamp.Timestamp>): Builder {
    Builder(Some(e.id), Some(e.source), Some(e.kind), Options(None, e.rest.dataschema, e.rest.subject, time, map[], NoData))
  }

  lemma ApplyContext(b: Binding, e: Event)
    requires ValidEvent(e) && RenderableOptions(e.rest)
    ensures var t := StoredTime(e.rest);
            ApplyAll(b, EMPTY_BUILDER, ContextPairs(e)) == if t.Err? then Err(t.error) else Ok(ContextBuilder(e, t.value))
  {
    hide ApplyAll, RequiredPairs, OptionalPair, MakeOptional, MakeContentType, MakeRequired, StoredTime, TimeText, RenderableOptions,
      MakeExtensionName;
    ApplyRequired(b, e);
    var m := RequiredPairs(e);
    ApplyOptional(b, EMPTY_BUILDER, m, DataSchema, e.rest.dataschema);
    m := m + OptionalPair(DataSchema, e.rest.dataschema);
    ApplyOptional(b, EMPTY_BUILDER, m, Subject, e.rest.subject);
    m := m + OptionalPair(Subject, e.rest.subject);
    ApplyTime(b, EMPTY_BUILDER, m, e.rest);
  }

  function RenderedExtensions(extensions: map<bytes, AttributeValue>): map<bytes, AttributeValue>
    requires forall k :: k in extensions ==> Renderable(extensions[k])
  {
    map k | k in extensions :: Text(RenderAttribute(extensions[k]))
  }

  lemma ApplyExtension(b: Binding, x: Builder, name: bytes, text: bytes)
    requires MakeExtensionName(name).Ok?
    ensures ApplyAttribute(b, x, name, text) == Ok(Changed(x, SetExtension(name, Text(text))))
  {
    hide ReservedAs, ValidName, Changed;
  }

  function RenderedAt(names: seq<bytes>, extensions: map<bytes, AttributeValue>): map<bytes, AttributeValue>
    requires forall k :: k in names ==> k in extensions && Renderable(extensions[k])
  {
    map k | k in names :: Text(RenderAttribute(extensions[k]))
  }

  lemma ThenTheRest(names: seq<bytes>, extensions: map<bytes, AttributeValue>, before: map<bytes, AttributeValue>)
    requires names != [] && forall k :: k in names ==> k in extensions && Renderable(extensions[k])
    ensures before[names[0] := Text(RenderAttribute(extensions[names[0]]))] + RenderedAt(names[1..], extensions)
            == before + RenderedAt(names, extensions)
  {
    hide RenderAttribute, Renderable;
    assert names == [names[0]] + names[1..];
  }

  lemma {:induction false} ApplyExtensions(b: Binding, x: Builder, names: seq<bytes>, extensions: map<bytes, AttributeValue>)
    requires forall k :: k in names ==> k in extensions && Renderable(extensions[k]) && MakeExtensionName(k).Ok?
    ensures ApplyAll(b, x, ExtensionPairs(names, extensions))
            == Ok(x.(rest := x.rest.(extensions := x.rest.extensions + RenderedAt(names, extensions))))
    decreases |names|
  {
    hide ApplyAttribute, RenderAttribute, Renderable, MakeExtensionName;
    if names == [] {
      assert x.rest.extensions + RenderedAt(names, extensions) == x.rest.extensions;
    } else {
      hide RenderedAt;
      var name := names[0];
      var text := RenderAttribute(extensions[name]);
      ApplyExtension(b, x, name, text);
      var pairs := ExtensionPairs(names, extensions);
      assert pairs[0] == Header(name, text) && pairs[1..] == ExtensionPairs(names[1..], extensions);
      ApplyExtensions(b, Changed(x, SetExtension(name, Text(text))), names[1..], extensions);
      ThenTheRest(names, extensions, x.rest.extensions);
    }
  }

  lemma ApplyAllExtensions(b: Binding, x: Builder, extensions: map<bytes, AttributeValue>)
    requires forall k :: k in extensions ==> Renderable(extensions[k]) && MakeExtensionName(k).Ok?
    requires x.rest.extensions == map[]
    ensures ApplyAll(b, x, ExtensionPairs(Order.Sorted(extensions.Keys), extensions))
            == Ok(x.(rest := x.rest.(extensions := RenderedExtensions(extensions))))
  {
    hide ApplyAll, ExtensionPairs, RenderAttribute, Renderable, MakeExtensionName, Order.Sorted;
    var names := Order.Sorted(extensions.Keys);
    ApplyExtensions(b, x, names, extensions);
    assert map[] + RenderedAt(names, extensions) == RenderedExtensions(extensions);
  }

  /** The builder the attribute fields give. */
  function AttributesBuilder(b: Binding, e: Event, time: Option<Timestamp.Timestamp>): Builder
    requires RenderableOptions(e.rest)
  {
    var x := ContextBuilder(e, time);
    x.(rest := x.rest.(extensions := RenderedExtensions(e.rest.extensions),
                       datacontenttype := if b.ContentTypeIsAttribute() then e.rest.datacontenttype else None))
  }

  lemma ApplyPairs(b: Binding, e: Event)
    requires ValidEvent(e) && RenderableOptions(e.rest)
    ensures var t := StoredTime(e.rest);
            ApplyAll(b, EMPTY_BUILDER, AllPairs(b, e)) == if t.Err? then Err(t.error) else Ok(AttributesBuilder(b, e, t.value))
  {
    hide ApplyAll, ContextPairs, ExtensionPairs, StoredTime, RenderedExtensions, MakeContentType, MakeExtensionName, OptionalPair,
      Renderable, MakeRequired, OptionalOk, Order.Sorted;
    ApplyContext(b, e);
    var context, extensions := ContextPairs(e), ExtensionPairs(Order.Sorted(e.rest.extensions.Keys), e.rest.extensions);
    var t := StoredTime(e.rest);
    ApplySplit(b, EMPTY_BUILDER, context, extensions);
    var more := if b.ContentTypeIsAttribute() then OptionalPair(DataContentType, e.rest.datacontenttype) else [];
    ApplySplit(b, EMPTY_BUILDER, context + extensions, more);
    if t.Ok? {
      ApplyAllExtensions(b, ContextBuilder(e, t.value), e.rest.extensions);
      if b.ContentTypeIsAttribute() {
        ApplyOptional(b, EMPTY_BUILDER, context + extensions, DataContentType, e.rest.datacontenttype);
      } else {
        assert context + extensions + [] == context + extensions;
      }
    }
  }

  // Well-formed texts

  /** Every extension is written as well-formed UTF-8; the other attributes always are. */
  ghost predicate WellFormedExtensions(o: Options)
    requires RenderableOptions(o)
  {
    forall k :: k in o.extensions ==> Utf8.WellFormed(RenderAttribute(o.extensions[k]))
  }

  lemma RequiredIsWellFormed(e: Event)
    requires ValidEvent(e)
    ensures WellFormedPairs(RequiredPairs(e))
  {
    hide NameOf, MakeRequired, ValidOptions;
    Utf8.AsciiIsWellFormed(VERSION);
    MadeIsItself(e.id);
    MadeIsItself(e.source);
    MadeIsItself(e.kind);
  }

  lemma OptionalIsWellFormed(r: Reserved, text: Option<bytes>)
    requires text.Some? ==> Utf8.WellFormed(text.value)
    ensures WellFormedPairs(OptionalPair(r, text))
  {
    hide NameOf, Utf8.WellFormed;
  }

  lemma ContextIsWellFormed(e: Event)
    requires ValidEvent(e) && RenderableOptions(e.rest)
    ensures WellFormedPairs(ContextPairs(e))
  {
    hide RequiredPairs, OptionalPair, WellFormedPairs, MakeRequired, MakeOptional, MakeContentType, MakeExtensionName,
      Timestamp.Render, Timestamp.CanRender, Utf8.WellFormed;
    RequiredIsWellFormed(e);
    if e.rest.dataschema.Some? {
      MadeIsItself(e.rest.dataschema.value);
    }
    if e.rest.subject.Some? {
      MadeIsItself(e.rest.subject.value);
    }
    if e.rest.time.Some? {
      RenderedText.TimeIsWellFormed(e.rest.time.value);
    }
    OptionalIsWellFormed(DataSchema, e.rest.dataschema);
    OptionalIsWellFormed(Subject, e.rest.subject);
    OptionalIsWellFormed(Time, TimeText(e.rest));
    var m := RequiredPairs(e);
    JoinWellFormed(m, OptionalPair(DataSchema, e.rest.dataschema));
    m := m + OptionalPair(DataSchema, e.rest.dataschema);
    JoinWellFormed(m, OptionalPair(Subject, e.rest.subject));
    m := m + OptionalPair(Subject, e.rest.subject);
    JoinWellFormed(m, OptionalPair(Time, TimeText(e.rest)));
  }

  lemma {:induction false} ExtensionIsPaired(names: seq<bytes>, extensions: map<bytes, AttributeValue>, k: bytes)
    requires forall n :: n in names ==> n in extensions && Renderable(extensions[n])
    requires k in names
    ensures Header(k, RenderAttribute(extensions[k])) in ExtensionPairs(names, extensions)
    decreases |names|
  {
    hide RenderAttribute, Renderable;
    if k != names[0] {
      ExtensionIsPaired(names[1..], extensions, k);
    }
  }

  lemma ExtensionsWellFormed(o: Options)
    requires RenderableOptions(o)
    ensures WellFormedPairs(ExtensionPairs(Order.Sorted(o.extensions.Keys), o.extensions)) <==> WellFormedExtensions(o)
  {
    hide RenderAttribute, Renderable, ExtensionPairs, Order.Sorted, Order.LessEq;
    var names := Order.Sorted(o.extensions.Keys);
    Order.SortedAscends(o.extensions.Keys);
    ExtensionNames(names, o.extensions);
    var pairs := ExtensionPairs(names, o.extensions);
    if WellFormedPairs(pairs) {
      forall k | k in o.extensions
        ensures Utf8.WellFormed(RenderAttribute(o.extensions[k]))
      {
        assert k in o.extensions.Keys;
        ExtensionIsPaired(names, o.extensions, k);
      }
    }
  }

  lemma PairsWellFormed(b: Binding, e: Event)
    requires ValidEvent(e) && RenderableOptions(e.rest)
    ensures WellFormedPairs(AllPairs(b, e)) <==> WellFormedExtensions(e.rest)
  {
    hide ContextPairs, ExtensionPairs, WellFormedExtensions, Renderable, NameOf, MakeContentType, MakeRequired, OptionalOk,
      MakeExtensionName, Utf8.WellFormed, Order.Sorted;
    ContextIsWellFormed(e);
    ExtensionsWellFormed(e.rest);
    if e.rest.datacontenttype.Some? {
      MadeIsItself(e.rest.datacontenttype.value);
    }
    var context, extensions := ContextPairs(e), ExtensionPairs(Order.Sorted(e.rest.extensions.Keys), e.rest.extensions);
    var more := if b.ContentTypeIsAttribute() then OptionalPair(DataContentType, e.rest.datacontenttype) else [];
    assert WellFormedPairs(more);
    JoinWellFormed(context, extensions);
    JoinWellFormed(context + extensions, more);
  }

  lemma JoinWellFormed(a: seq<Header>, c: seq<Header>)
    ensures WellFormedPairs(a + c) <==> WellFormedPairs(a) && WellFormedPairs(c)
  {
    hide Utf8.WellFormed;
    assert forall p :: p in a + c <==> p in a || p in c;
  }

  /** Every binding but NATS has checked the texts it wrote. */
  lemma WrittenIsWellFormed(b: Binding, pairs: seq<Header>)
    requires AllEncode(b, pairs) && !b.Nats?
    ensures WellFormedPairs(pairs)
  {
    hide EncodeValue, Utf8.WellFormed;
    forall p: Header | p in pairs
      ensures Utf8.WellFormed(p.value)
    {
      ValueReturns(b, p.value);
    }
  }

  // The message

  lemma {:induction false} AttributeFieldsOfFields(b: Binding, declared: Option<bytes>, pairs: seq<Header>, tail: seq<Header>)
    requires b.OfMqtt() && AllEncode(b, pairs) && Named(pairs)
    requires forall p :: p in pairs ==> p.name != NameOf(DataContentType)
    requires AttributeFields(b, declared, false, tail) == Ok([])
    ensures AttributeFields(b, declared, false, Fields(b, pairs) + tail) == Ok(Fields(b, pairs))
    decreases |pairs|
  {
    hide EncodeValue, ValidName, KindOf, NameOf, AllEncode;
    if pairs == [] {
      assert Fields(b, pairs) + tail == tail;
    } else {
      hide Fields;
      var p, rest := pairs[0], pairs[1..];
      assert p in pairs;
      var h := FirstField(b, pairs);
      var all := Fields(b, pairs) + tail;
      assert all[0] == h && all[1..] == Fields(b, rest) + tail;
      AttributeFieldsOfFields(b, declared, rest, tail);
      AttributeKind(b, p.name);
    }
  }

  lemma FirstField(b: Binding, pairs: seq<Header>) returns (h: Header)
    requires AllEncode(b, pairs) && pairs != []
    ensures AllEncode(b, pairs[1..]) && Fields(b, pairs) == [h] + Fields(b, pairs[1..])
    ensures h.name == b.Prefix() + pairs[0].name
  {
    hide EncodeValue;
    h := Fields(b, pairs)[0];
  }

  lemma AttributeKind(b: Binding, name: bytes)
    requires ValidName(name) && name != NameOf(DataContentType)
    ensures KindOf(b, b.Prefix() + name) == Attribute
  {
    hide ValidName, NameOf;
    assert (b.Prefix() + name)[|b.Prefix()|..] == name;
    if b.Mqtt? {
      assert b.Prefix() + name == name;
    }
  }

  lemma MediaFieldIsForeign(b: Binding, e: Event, declared: Option<bytes>)
    requires b.OfMqtt()
    ensures AttributeFields(b, declared, false, MediaField(b, e)) == Ok([])
  {
    hide KindOf;
    ContentTypeIsNoAttribute(b);
    if MediaField(b, e) != [] {
      assert MediaField(b, e)[1..] == [];
    }
  }

  /** The fields the writer left, none repeated. */
  function Entries(b: Binding, e: Event): seq<Header>
    requires RenderableOptions(e.rest) && AllEncode(b, AllPairs(b, e))
  {
    Fields(b, AllPairs(b, e)) + MediaField(b, e)
  }

  lemma EntriesNoRepeats(b: Binding, e: Event)
    requires RenderableOptions(e.rest) && AllEncode(b, AllPairs(b, e)) && WellNamed(b, e)
    ensures NoRepeats(b.Rule(), Entries(b, e))
  {
    hide Fields, AllPairs, AllEncode, NoRepeats, RenderableOptions, Named, Same;
    FieldsNoRepeats(b, AllPairs(b, e));
    MediaTypeIsNew(b, AllPairs(b, e));
    assert NoRepeats(b.Rule(), MediaField(b, e)) by { AtMostOne(b.Rule(), MediaField(b, e)); }
    JoinNoRepeats(b.Rule(), Fields(b, AllPairs(b, e)), MediaField(b, e));
  }

  lemma AtMostOne(rule: Matching, entries: seq<Header>)
    requires |entries| <= 1
    ensures NoRepeats(rule, entries)
  {
  }

  lemma DeclaredIs(b: Binding, e: Event)
    requires RenderableOptions(e.rest) && AllEncode(b, AllPairs(b, e)) && WellNamed(b, e)
    ensures Lookup(b.Rule(), Entries(b, e), b.ContentTypeHeader())
            == if b.ContentTypeIsAttribute() then None else e.rest.datacontenttype
  {
    hide Fields, AllPairs, AllEncode, NoRepeats, RenderableOptions, Named, Same;
    var fields := Fields(b, AllPairs(b, e));
    MediaTypeIsNew(b, AllPairs(b, e));
    LookupSplit(b.Rule(), fields, MediaField(b, e), b.ContentTypeHeader());
    LookupAbsent(b.Rule(), fields, b.ContentTypeHeader());
    SameIsEquivalence(b.Rule(), b.ContentTypeHeader(), [], []);
  }

  lemma VersionIsWritten(b: Binding, e: Event)
    requires RenderableOptions(e.rest) && AllEncode(b, AllPairs(b, e))
    ensures Lookup(b.Rule(), Entries(b, e), b.Prefix() + NameOf(SpecVersion)).Some?
  {
    hide EncodeValue, Same, NameOf, RenderableOptions, ExtensionPairs, OptionalPair, MediaField, VERSION, RenderAttribute;
    assert AllPairs(b, e)[0] == Pair(SpecVersion, VERSION);
    assert Entries(b, e)[0].name == b.Prefix() + NameOf(SpecVersion);
    SameIsEquivalence(b.Rule(), b.Prefix() + NameOf(SpecVersion), [], []);
  }

  /** The attributes read from the fields that hold them. */
  lemma AttributesRead(b: Binding, e: Event, entries: seq<Header>)
    requires ValidEvent(e) && RenderableOptions(e.rest) && AllEncode(b, AllPairs(b, e)) && WellNamed(b, e)
    requires entries == (if b.OfMqtt() then Fields(b, AllPairs(b, e)) else Entries(b, e))
    ensures var t := StoredTime(e.rest);
            var r := ReadAttributes(b, entries);
            && (!WellFormedExtensions(e.rest) ==> r.Err?)
            && (WellFormedExtensions(e.rest) ==> r == if t.Err? then Err(t.error) else Ok(AttributesBuilder(b, e, t.value)))
  {
    hide Fields, AllPairs, AllEncode, NoRepeats, RenderableOptions, ReadFields, ApplyAll, StoredTime, AttributesBuilder,
      WellFormedExtensions, WellFormedPairs, ValidEvent, CarriesPrefix, Named;
    var pairs := AllPairs(b, e);
    PairsWellFormed(b, e);
    FieldsReturn(b, EMPTY_BUILDER, pairs);
    ApplyPairs(b, e);
    if b.OfMqtt() {
      FieldsNoRepeats(b, pairs);
    } else {
      EntriesNoRepeats(b, e);
      ReadSplit(b, EMPTY_BUILDER, Fields(b, pairs), MediaField(b, e));
      var read := ReadFields(b, EMPTY_BUILDER, Fields(b, pairs));
      if read.Ok? {
        MediaFieldIsPassedOver(b, e, read.value);
      }
    }
  }

  lemma MediaFieldIsPassedOver(b: Binding, e: Event, x: Builder)
    requires !b.OfMqtt()
    ensures ReadFields(b, x, MediaField(b, e)) == Ok(x)
  {
    hide CarriesPrefix, DecodeValue, ApplyAttribute;
    ContentTypeIsNoAttribute(b);
    if MediaField(b, e) != [] {
      assert MediaField(b, e)[1..] == [];
    }
  }

  lemma ContextRead(b: Binding, e: Event)
    requires ValidEvent(e) && RenderableOptions(e.rest) && AllEncode(b, AllPairs(b, e)) && WellNamed(b, e)
    ensures var t := StoredTime(e.rest);
            var r := Bindings.ReadContext(b, Entries(b, e));
            && (!WellFormedExtensions(e.rest) ==> r.Err?)
            && (WellFormedExtensions(e.rest) && t.Err? ==> r == Err(t.error))
            && (WellFormedExtensions(e.rest) && t.Ok?
                ==> r == Ok(Builder(Some(e.id), Some(e.source), Some(e.kind),
                                    e.rest.(time := t.value, extensions := RenderedExtensions(e.rest.extensions), data := NoData))))
  {
    hide Fields, AllPairs, AllEncode, NoRepeats, RenderableOptions, ReadAttributes, StoredTime, RenderedExtensions, MediaField,
      WellFormedExtensions, Lookup, AttributeFields, MakeContentType, MakeOptional, MakeRequired, MakeExtensionName, Named;
    DeclaredIs(b, e);
    var entries := Entries(b, e);
    if b.OfMqtt() {
      var declared := Lookup(b.Rule(), entries, b.ContentTypeHeader());
      MediaFieldIsForeign(b, e, declared);
      AttributeFieldsOfFields(b, declared, AllPairs(b, e), MediaField(b, e));
      AttributesRead(b, e, Fields(b, AllPairs(b, e)));
    } else {
      AttributesRead(b, e, entries);
    }
    if e.rest.datacontenttype.Some? {
      MadeIsItself(e.rest.datacontenttype.value);
    }
  }

  // Which messages are binary

  /** The media type is not one of CloudEvents' own; NATS, which carries it as an attribute, need not ask. */
  predicate PlainMediaType(b: Binding, datacontenttype: Option<bytes>) {
    b.ContentTypeIsAttribute() || (datacontenttype.Some? ==> !StartsWith(b, datacontenttype.value, CLOUDEVENTS))
  }

  lemma BatchesAreCloudEvents(b: Binding, text: bytes)
    ensures StartsWith(b, text, BATCH) ==> StartsWith(b, text, CLOUDEVENTS)
  {
    hide Lower;
    assert CLOUDEVENTS <= BATCH;
    if b.Rule().CaseInsensitive? && StartsWith(b, text, BATCH) {
      var n, m := |CLOUDEVENTS|, |BATCH|;
      forall i | 0 <= i < n
        ensures Lower(text[..n][i]) == Lower(CLOUDEVENTS[i])
      {
        assert text[..m][i] == text[i] && BATCH[i] == CLOUDEVENTS[i];
      }
    }
  }

  lemma ModeOfWritten(b: Binding, e: Event)
    requires RenderableOptions(e.rest) && AllEncode(b, AllPairs(b, e)) && WellNamed(b, e)
    ensures DetectMode(b, Entries(b, e)) == BinaryMode <==> PlainMediaType(b, e.rest.datacontenttype)
  {
    hide Entries, StartsWith, Lookup, RenderableOptions, AllPairs, AllEncode, NoRepeats, Named;
    DeclaredIs(b, e);
    if e.rest.datacontenttype.Some? {
      BatchesAreCloudEvents(b, e.rest.datacontenttype.value);
    }
  }

  lemma ContentTypeOnce(b: Binding, e: Event)
    requires RenderableOptions(e.rest) && AllEncode(b, AllPairs(b, e)) && WellNamed(b, e)
    ensures b.OfMqtt() ==> CountNamed(Entries(b, e), b.ContentTypeHeader()) <= 1
  {
    hide Entries, RenderableOptions, AllPairs, AllEncode, NoRepeats, Named, CountNamed;
    EntriesNoRepeats(b, e);
    if b.OfMqtt() {
      BindingOrder.NamedOnce(Entries(b, e), b.ContentTypeHeader());
    }
  }

  // The theorems

  /** The event as a binary-mode message keeps it: every extension as the text it was written as, and the
      data the body is read as. */
  function BinaryNormal(e: Event, data: Payload): Event
    requires RenderableOptions(e.rest)
  {
    e.(rest := e.rest.(extensions := RenderedExtensions(e.rest.extensions), data := data))
  }

  /** For every binding, the fields an event was written as, with any body that can be read, are received
      as the event's normal form exactly when its time is one a text can give and its extensions are
      well-formed UTF-8. (A media type of CloudEvents' own would make the message a structured one.) */
  lemma BinaryRoundTrip(b: Binding, e: Event, body: bytes, r: Receiver)
    requires ValidEvent(e) && RenderableOptions(e.rest) && WriteAttributes(b, e, []).failure.None?
    requires PlainMediaType(b, e.rest.datacontenttype) && ReadBody(body, e.rest.datacontenttype, r).Ok?
    ensures Received(b, WriteAttributes(b, e, []).entries, body, r)
            == Ok(BinaryNormal(e, ReadBody(body, e.rest.datacontenttype, r).value))
            <==> ExactTime(e.rest) && WellFormedExtensions(e.rest)
  {
    hide Fields, AllPairs, AllEncode, NoRepeats, RenderableOptions, Bindings.ReadContext, StoredTime, RenderedExtensions, MediaField,
      WellFormedExtensions, Lookup, ReadBody, WriteAttributes, ValidEvent, Named, CountNamed, DetectMode, PlainMediaType,
      TimestampLaws.Exact;
    ReceivedIs(b, e, body, r);
    ContextRead(b, e);
    TimeReturns(e.rest);
  }

  /** What is received of what was written, up to the attributes. */
  lemma ReceivedIs(b: Binding, e: Event, body: bytes, r: Receiver)
    requires ValidEvent(e) && RenderableOptions(e.rest) && WriteAttributes(b, e, []).failure.None?
    requires PlainMediaType(b, e.rest.datacontenttype)
    ensures AllEncode(b, AllPairs(b, e)) && WellNamed(b, e) && WriteAttributes(b, e, []).entries == Entries(b, e)
    ensures Received(b, Entries(b, e), body, r) == ReadBinary(b, Entries(b, e), body, r)
  {
    hide Fields, AllPairs, AllEncode, NoRepeats, RenderableOptions, ReadBinary, MediaField, Lookup, WriteAttributes, Named,
      CountNamed, DetectMode, PlainMediaType, MakeRequired, ValidOptions;
    WrittenIs(b, e);
    AllPairNames(b, e);
    ModeOfWritten(b, e);
    ContentTypeOnce(b, e);
    VersionIsWritten(b, e);
  }

  /** Every binding but NATS writes well-formed texts only, so there the time alone decides. */
  lemma CheckedBindingsRoundTrip(b: Binding, e: Event, body: bytes, r: Receiver)
    requires ValidEvent(e) && RenderableOptions(e.rest) && WriteAttributes(b, e, []).failure.None? && !b.Nats?
    requires PlainMediaType(b, e.rest.datacontenttype) && ReadBody(body, e.rest.datacontenttype, r).Ok?
    ensures Received(b, WriteAttributes(b, e, []).entries, body, r)
            == Ok(BinaryNormal(e, ReadBody(body, e.rest.datacontenttype, r).value))
            <==> ExactTime(e.rest)
  {
    hide AllPairs, AllEncode, RenderableOptions, WellFormedExtensions, ReadBody, WriteAttributes, ValidEvent, PlainMediaType,
      TimestampLaws.Exact, Received, BinaryNormal;
    BinaryRoundTrip(b, e, body, r);
    ValidEventHasOptions(e);
    WrittenIs(b, e);
    WrittenIsWellFormed(b, AllPairs(b, e));
    PairsWellFormed(b, e);
  }

  lemma ValidEventHasOptions(e: Event)
    requires ValidEvent(e)
    ensures ValidOptions(e.rest)
  {
  }

  // What was received

  /** What reading fields keeps: every attribute checked, the time exact, every extension a well-formed text. */
  ghost predicate ReceivedSoFar(x: Builder) {
    && (x.id.Some? ==> MakeRequired(x.id.value).Ok?) && (x.source.Some? ==> MakeRequired(x.source.value).Ok?)
    && (x.kind.Some? ==> MakeRequired(x.kind.value).Ok?) && ValidOptions(x.rest) && ExactTime(x.rest)
    && TextExtensions(x.rest.extensions)
  }

  ghost predicate TextExtensions(extensions: map<bytes, AttributeValue>) {
    forall k :: k in extensions ==> extensions[k].Text? && Utf8.WellFormed(extensions[k].text)
  }

  lemma DecodedIsWellFormed(b: Binding, text: bytes)
    requires DecodeValue(b, text).Ok?
    ensures Utf8.WellFormed(DecodeValue(b, text).value)
  {
  }

  /** What a change must bring for `ReceivedSoFar` to be kept. */
  ghost predicate Sound(c: Change) {
    match c
    case Unchanged => true
    case SetId(text) => MakeRequired(text).Ok?
    case SetSource(text) => MakeRequired(text).Ok?
    case SetKind(text) => MakeRequired(text).Ok?
    case SetMediaType(text) => MakeContentType(text).Ok?
    case SetSchema(text) => MakeOptional(text).Ok?
    case SetSubject(text) => MakeOptional(text).Ok?
    case SetTime(time) => TimestampLaws.Exact(time)
    case SetExtension(name, value) => MakeExtensionName(name).Ok? && value.Text? && Utf8.WellFormed(value.text)
  }

  lemma ChangeIsSound(b: Binding, attribute: bytes, value: bytes)
    requires ChangeOf(b, attribute, value).Ok? && Utf8.WellFormed(value)
    ensures Sound(ChangeOf(b, attribute, value).value)
  {
    hide ReservedAs, NameOf, Timestamp.Parse, TimestampLaws.Exact, MakeRequired, MakeOptional, MakeContentType, ValidName, Utf8.WellFormed;
    MadeIsItself(value);
    if Timestamp.Parse(value).Ok? {
      TimestampLaws.ParsedIsExact(value);
    }
  }

  lemma SoundIsKept(x: Builder, c: Change)
    requires ReceivedSoFar(x) && Sound(c)
    ensures ReceivedSoFar(Changed(x, c))
  {
    hide TimestampLaws.Exact, MakeRequired, MakeOptional, MakeContentType, MakeExtensionName, Utf8.WellFormed;
  }

  lemma {:induction false} FieldsAreReceived(b: Binding, x: Builder, entries: seq<Header>)
    requires ReceivedSoFar(x) && ReadFields(b, x, entries).Ok?
    ensures ReceivedSoFar(ReadFields(b, x, entries).value)
    decreases |entries|
  {
    hide DecodeValue, ChangeOf, Changed, EqualIgnoringCase, AttributeNameOf, ReceivedSoFar, Sound, Utf8.WellFormed;
    if entries != [] {
      var h := entries[0];
      if CarriesPrefix(b, h.name) {
        var value := DecodeValue(b, h.value).value;
        DecodedIsWellFormed(b, h.value);
        ChangeIsSound(b, AttributeNameOf(b, h.name), value);
        SoundIsKept(x, ChangeOf(b, AttributeNameOf(b, h.name), value).value);
      }
      FieldsAreReceived(b, ReadField(b, x, h).value, entries[1..]);
    }
  }

  lemma ContextIsReceived(b: Binding, entries: seq<Header>)
    requires Bindings.ReadContext(b, entries).Ok?
    ensures ReceivedSoFar(Bindings.ReadContext(b, entries).value)
  {
    hide ReadFields, AttributeFields, Lookup, MakeContentType, NoRepeats, ReceivedSoFar, Changed;
    var declared := Lookup(b.Rule(), entries, b.ContentTypeHeader());
    var fields := if b.OfMqtt() then AttributeFields(b, declared, false, entries).value else entries;
    assert ReceivedSoFar(EMPTY_BUILDER) by { NothingReceived(); }
    FieldsAreReceived(b, EMPTY_BUILDER, fields);
    if declared.Some? && !b.ContentTypeIsAttribute() {
      MadeIsItself(declared.value);
      var x := ReadFields(b, EMPTY_BUILDER, fields).value;
      assert Bindings.ReadContext(b, entries).value == Changed(x, SetMediaType(declared.value)) by { MediaTypeChange(x, declared.value); }
      SoundIsKept(x, SetMediaType(declared.value));
    }
  }

  lemma MediaTypeChange(x: Builder, text: bytes)
    ensures Changed(x, SetMediaType(text)) == x.(rest := x.rest.(datacontenttype := Some(text)))
  {
  }

  lemma NothingReceived()
    ensures ReceivedSoFar(EMPTY_BUILDER)
  {
  }

  /** Every event received in binary mode is valid and already in the form binary mode keeps. */
  lemma ReceivedIsNormal(b: Binding, entries: seq<Header>, body: bytes, r: Receiver)
    requires ReadBinary(b, entries, body, r).Ok?
    ensures var e := ReadBinary(b, entries, body, r).value;
            && ValidEvent(e) && ExactTime(e.rest) && TextExtensions(e.rest.extensions)
            && ReadBody(body, e.rest.datacontenttype, r) == Ok(e.rest.data)
  {
    hide Bindings.ReadContext, ReadBody, MakeRequired, MakeOptional, MakeContentType, MakeExtensionName, TimestampLaws.Exact, Utf8.WellFormed;
    ContextIsReceived(b, entries);
  }

  lemma TextsAreNormal(e: Event)
    requires RenderableOptions(e.rest) && TextExtensions(e.rest.extensions)
    ensures RenderedExtensions(e.rest.extensions) == e.rest.extensions && WellFormedExtensions(e.rest)
  {
    hide Utf8.WellFormed;
  }

  /** The body written for what a body was read as is that body, unless it was kept as a parsed document. */
  lemma BodyIsForwarded(body: bytes, datacontenttype: Option<bytes>, r: Receiver)
    requires ReadBody(body, datacontenttype, r).Ok? && !ReadBody(body, datacontenttype, r).value.JsonDocument?
    ensures WriteBody(ReadBody(body, datacontenttype, r).value, r.codec) == body
  {
    hide IsJsonContentType;
  }

  // Whole messages, with the body the writer gives them

  /** The data that comes back from its own body: octets under a media type that is not JSON, and JSON kept
      in the form the receiver's options read it in. A text comes back as octets or as JSON, never as itself. */
  predicate SurvivesAsBody(data: Payload, datacontenttype: Option<bytes>, r: Receiver) {
    var body := WriteBody(data, r.codec);
    match data
    case NoData => true
    case BinaryData(_) => body != [] && !DeclaredJson(datacontenttype)
    case TextData(_) => false
    case JsonText(_) =>
      body != [] && DeclaredJson(datacontenttype)
      && (r.parseBinaryBody ==> r.codec.parse(body).Ok? && !Retains(r, |body|))
    case JsonDocument(document) =>
      body != [] && DeclaredJson(datacontenttype)
      && r.parseBinaryBody && r.codec.parse(body) == Ok(document) && Retains(r, |body|)
  }

  lemma BodyReturns(data: Payload, datacontenttype: Option<bytes>, r: Receiver)
    ensures ReadBody(WriteBody(data, r.codec), datacontenttype, r) == Ok(data) <==> SurvivesAsBody(data, datacontenttype, r)
  {
    hide IsJsonContentType;
  }

  /** A whole message: an event written in binary mode with its own body is received as itself, its
      extensions as texts, exactly when time, extensions and data each survive. */
  lemma MessageRoundTrip(b: Binding, e: Event, r: Receiver)
    requires ValidEvent(e) && RenderableOptions(e.rest) && WriteAttributes(b, e, []).failure.None?
    requires PlainMediaType(b, e.rest.datacontenttype)
    ensures Received(b, WriteAttributes(b, e, []).entries, WriteBody(e.rest.data, r.codec), r) == Ok(BinaryNormal(e, e.rest.data))
            <==> ExactTime(e.rest) && WellFormedExtensions(e.rest) && SurvivesAsBody(e.rest.data, e.rest.datacontenttype, r)
  {
    hide Fields, AllPairs, AllEncode, NoRepeats, RenderableOptions, Bindings.ReadContext, StoredTime, RenderedExtensions, MediaField,
      WellFormedExtensions, Lookup, ReadBody, WriteBody, WriteAttributes, ValidEvent, Named, CountNamed, DetectMode, PlainMediaType,
      TimestampLaws.Exact, SurvivesAsBody;
    var body := WriteBody(e.rest.data, r.codec);
    BodyReturns(e.rest.data, e.rest.datacontenttype, r);
    ReceivedIs(b, e, body, r);
    ContextRead(b, e);
    TimeReturns(e.rest);
  }

  // Bridges

  /** A document the codec dumps to a body that it reads as that document, short enough to be kept as one. */
  predicate ReadsItsDump(document: Json, r: Receiver) {
    var body := r.codec.dump(document);
    body != [] && r.codec.parse(body) == Ok(document) && Retains(r, |body|)
  }

  /** Of the data a body is read as, only a document can fail to come back from the body it is written as. */
  lemma ReadDataSurvives(body: bytes, datacontenttype: Option<bytes>, r: Receiver)
    requires ReadBody(body, datacontenttype, r).Ok?
    ensures var data := ReadBody(body, datacontenttype, r).value;
            SurvivesAsBody(data, datacontenttype, r) <==> (data.JsonDocument? ==> ReadsItsDump(data.document, r))
  {
    hide IsJsonContentType;
  }

  /** A bridge: an event received in binary mode over one binding and written by any binding that can write
      it, attributes and body, is received there as an equal event, exactly when its data survives there.
      Under the options it was first received with, that is so unless the data is a document that the codec
      does not read back from its own dump. */
  lemma ForwardedIsEqual(from: Binding, entries: seq<Header>, body: bytes, r: Receiver, to: Binding, there: Receiver)
    requires ReadBinary(from, entries, body, r).Ok?
    requires var e := ReadBinary(from, entries, body, r).value;
             RenderableOptions(e.rest) && WriteAttributes(to, e, []).failure.None? && PlainMediaType(to, e.rest.datacontenttype)
    ensures var e := ReadBinary(from, entries, body, r).value;
            Received(to, WriteAttributes(to, e, []).entries, WriteBody(e.rest.data, there.codec), there) == Ok(e)
            <==> SurvivesAsBody(e.rest.data, e.rest.datacontenttype, there)
    ensures var data := ReadBinary(from, entries, body, r).value.rest.data;
            there == r ==> (SurvivesAsBody(data, ReadBinary(from, entries, body, r).value.rest.datacontenttype, there)
                            <==> (data.JsonDocument? ==> ReadsItsDump(data.document, r)))
  {
    hide RenderableOptions, ReadBody, WriteBody, WriteAttributes, PlainMediaType, Received, ReadBinary, ValidEvent, TextExtensions,
      ExactTime, SurvivesAsBody, ReadsItsDump;
    var e := ReadBinary(from, entries, body, r).value;
    ReceivedIsNormal(from, entries, body, r);
    TextsAreNormal(e);
    MessageRoundTrip(to, e, there);
    ReadDataSurvives(body, e.rest.datacontenttype, r);
  }

  // What is not read in binary mode

  /** An event whose media type is one of CloudEvents' own is written in binary mode and not read in it:
      its body goes to the reader of structured bodies, or is refused as a batch. */
  lemma OwnMediaTypeIsNotBinary(b: Binding, e: Event, body: bytes, r: Receiver)
    requires ValidEvent(e) && RenderableOptions(e.rest) && WriteAttributes(b, e, []).failure.None?
    requires !PlainMediaType(b, e.rest.datacontenttype)
    ensures Received(b, WriteAttributes(b, e, []).entries, body, r)
            == if StartsWith(b, e.rest.datacontenttype.value, BATCH) then Err(InvalidArgument) else r.structured(body)
  {
    hide Fields, AllPairs, AllEncode, NoRepeats, RenderableOptions, ReadBinary, MediaField, Lookup, WriteAttributes, Named,
      CountNamed, MakeRequired, ValidOptions, StartsWith;
    WrittenIs(b, e);
    AllPairNames(b, e);
    DeclaredIs(b, e);
    ContentTypeOnce(b, e);
  }

  /** An event of the media type application/cloudevents+json and nothing more than is required. */
  function StructuredLooking(): Event {
    Event(Ascii("1"), Ascii("/"), Ascii("t"), NO_OPTIONS.(datacontenttype := Some(BindingReads.JSON)))
  }

  predicate IsPrintable(text: bytes) {
    forall i :: 0 <= i < |text| ==> 0x20 <= text[i] < 0x7F
  }

  lemma PrintableIsWritten(b: Binding, text: bytes)
    requires IsPrintable(text) && |text| <= LONGEST_MQTT_STRING
    ensures EncodeValue(b, text).Ok?
  {
    hide Percent.Encode;
    Utf8.AsciiIsWellFormed(text);
  }

  lemma StructuredLookingIsValid()
    ensures ValidEvent(StructuredLooking())
  {
    hide Subtype, IsToken, MakeContentType, BindingReads.JSON;
    Utf8.AsciiIsWellFormed(Ascii("1"));
    Utf8.AsciiIsWellFormed(Ascii("/"));
    Utf8.AsciiIsWellFormed(Ascii("t"));
    JsonIsMediaType();
  }

  lemma JsonIsMediaType()
    ensures MakeContentType(BindingReads.JSON).Ok?
  {
    hide Subtype, IsToken, Ascii;
    var subtype := Ascii("cloudevents") + Ascii("+json");
    TokensOf("application");
    TokensOf("cloudevents");
    TokensOf("+json");
    Attributes.PlainMediaType(APPLICATION, subtype);
    assert BindingReads.JSON == APPLICATION + ['/' as int] + subtype;
    Utf8.AsciiIsWellFormed(BindingReads.JSON);
  }

  lemma TokensOf(s: string)
    requires forall i :: 0 <= i < |s| ==> 'a' <= s[i] <= 'z' || s[i] == '+'
    ensures forall i :: 0 <= i < |s| ==> IsToken(Ascii(s)[i])
    ensures forall i :: 0 <= i < |s| ==> Ascii(s)[i] < 0x80
  {
  }

  lemma StructuredLookingPairs(b: Binding)
    requires !b.Nats?
    ensures RenderableOptions(StructuredLooking().rest)
    ensures AllPairs(b, StructuredLooking()) == RequiredPairs(StructuredLooking())
  {
    hide RequiredPairs;
  }

  lemma RequiredAreWritten(b: Binding)
    ensures AllEncode(b, RequiredPairs(StructuredLooking()))
  {
    hide EncodeValue, NameOf, IsPrintable;
    var e := StructuredLooking();
    ShortTexts();
    PrintableIsWritten(b, VERSION);
    PrintableIsWritten(b, e.id);
    PrintableIsWritten(b, e.source);
    PrintableIsWritten(b, e.kind);
  }

  lemma ShortTexts()
    ensures IsPrintable(VERSION) && |VERSION| == 3
    ensures IsPrintable(Ascii("1")) && IsPrintable(Ascii("/")) && IsPrintable(Ascii("t"))
  {
  }

  lemma StructuredLookingIsWritten(b: Binding)
    requires !b.Nats?
    ensures RenderableOptions(StructuredLooking().rest) && WriteAttributes(b, StructuredLooking(), []).failure.None?
  {
    hide PutAll, PutAttribute, Fields, AllPairs, NoRepeats, Named, WriteAttributes, EncodeValue, NameOf, StructuredLooking, RequiredPairs,
      ValidOptions, MakeRequired, AllEncode, RenderableOptions;
    StructuredLookingIsValid();
    StructuredLookingPairs(b);
    AllPairNames(b, StructuredLooking());
    WrittenAll(b, StructuredLooking());
    assert Unused(b, [], AllPairs(b, StructuredLooking()));
    PutAllAppends(b, Written([], None), AllPairs(b, StructuredLooking()));
    RequiredAreWritten(b);
  }

  /** It is valid, every binding but NATS writes it in binary mode, and its body is read as a structured one. */
  lemma WrittenBinaryReadStructured(b: Binding, body: bytes, r: Receiver)
    requires !b.Nats?
    ensures ValidEvent(StructuredLooking()) && RenderableOptions(StructuredLooking().rest)
    ensures WriteAttributes(b, StructuredLooking(), []).failure.None?
    ensures Received(b, WriteAttributes(b, StructuredLooking(), []).entries, body, r) == r.structured(body)
  {
    hide WriteAttributes, Received, ValidEvent, RenderableOptions, StartsWith, BindingReads.JSON;
    StructuredLookingIsValid();
    StructuredLookingIsWritten(b);
    BindingReads.JsonStarts(b);
    OwnMediaTypeIsNotBinary(b, StructuredLooking(), body, r);
  }
}
