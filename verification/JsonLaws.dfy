/** What the JSON format keeps: the event an encoded event reads back as, and the documents that are
    a fixed point of reading and writing. */
module JsonLaws {
  import opened Wrappers
  import opened JsonDom
  import opened Attributes
  import opened Timestamp
  import opened TimestampLaws
  import opened JsonFormat
  import Base64
  import Order

  // What an event reads back as

  /** JSON keeps booleans, integers and texts; every other value comes back as the text written for it. */
  function NormalAttribute(v: AttributeValue): AttributeValue
    requires Renderable(v)
  {
    match v
    case Bool(_) => v
    case Integer(_) => v
    case Text(_) => v
    case Binary(octets) => Text(Base64.Encode(octets))
    case Instant(t) => Text(Render(t))
    case Uri(text) => Text(text)
    case UriRef(text) => Text(text)
  }

  function NormalDocument(document: Json, datacontenttype: Option<bytes>): Payload {
    if DeclaredNonJson(datacontenttype) && document.Str? then TextData(document.text) else JsonDocument(document)
  }

  /** Octets stay octets; a text stays one only under a media type that is not JSON, and a JSON string
      becomes one under such a media type. */
  function NormalData(data: Payload, datacontenttype: Option<bytes>, codec: Codec): Payload
    requires DataMember(data, codec).Ok?
  {
    match data
    case NoData => NoData
    case BinaryData(_) => data
    case TextData(text) => NormalDocument(Str(text), datacontenttype)
    case JsonDocument(document) => NormalDocument(document, datacontenttype)
    case JsonText(raw) => NormalDocument(codec.parse(raw).value, datacontenttype)
  }

  function NormalExtensions(extensions: map<bytes, AttributeValue>): map<bytes, AttributeValue>
    requires forall k :: k in extensions ==> Renderable(extensions[k])
  {
    map k | k in extensions :: NormalAttribute(extensions[k])
  }

  function JsonNormal(e: Event, codec: Codec): Event
    requires RenderableOptions(e.rest) && DataMember(e.rest.data, codec).Ok?
  {
    e.(rest := e.rest.(extensions := NormalExtensions(e.rest.extensions),
                       data := NormalData(e.rest.data, e.rest.datacontenttype, codec)))
  }

  // Which member of a name is read

  lemma {:induction false} SlotsFound(found: Found, members: seq<Member>, r: Reserved)
    ensures var slots := ReadMembers(found, members).slots;
            var first := Find(Object(members), NameOf(r));
            && (r in slots <==> r in found.slots || first.Some?)
            && (r in slots ==> slots[r] == if r in found.slots then found.slots[r] else first.value)
    decreases |members|
  {
    hide NameOf, ReservedAs, ReadExtension;
    if members != [] {
      SlotsFound(ReadMember(found, members[0]), members[1..], r);
      ReservedAsName(r);
      NameOfReserved(members[0].key);
    }
  }

  /** Of the members of a reserved name the first is read, wherever it stands: the one `find` gives. */
  lemma FirstMemberIsRead(document: Json, r: Reserved)
    requires document.Object?
    ensures var slots := ReadMembers(NOTHING_FOUND, document.members).slots;
            (if r in slots then Some(slots[r]) else None) == Find(document, NameOf(r))
  {
    hide ReadMembers, NameOf, Find;
    SlotsFound(NOTHING_FOUND, document.members, r);
  }

  /** Of the members of an extension's name the last that is not null is read. */
  ghost predicate LastOf(members: seq<Member>, name: bytes, i: nat) {
    && i < |members| && members[i].key == name && members[i].item != Null
    && forall j :: i < j < |members| && members[j].key == name ==> members[j].item == Null
  }

  lemma {:induction false} LastMemberIsRead(found: Found, members: seq<Member>, name: bytes, i: nat)
    requires LastOf(members, name, i) && ReservedAs(name).None?
    requires ReadMembers(found, members).failure.None?
    ensures var extensions := ReadMembers(found, members).extensions;
            DecodeAttribute(members[i].item).Ok? && name in extensions
            && extensions[name] == DecodeAttribute(members[i].item).value
    decreases |members|
  {
    hide ReservedAs, DecodeAttribute, ValidName;
    var next := ReadMember(found, members[0]);
    FailureStays(next, members[1..]);
    if i > 0 {
      forall j | i - 1 < j < |members[1..]| && members[1..][j].key == name
        ensures members[1..][j].item == Null
      {
        assert members[j + 1].key == name;
      }
      LastMemberIsRead(next, members[1..], name, i - 1);
    } else {
      forall j | 0 <= j < |members[1..]| && members[1..][j].key == name
        ensures members[1..][j].item == Null
      {
        assert members[j + 1].key == name;
      }
      NoMoreOf(next, members[1..], name);
    }
  }

  lemma {:induction false} FailureStays(found: Found, members: seq<Member>)
    requires ReadMembers(found, members).failure.None?
    ensures found.failure.None?
    decreases |members|
  {
    hide ReservedAs, ReadExtension;
    if members != [] {
      FailureStays(ReadMember(found, members[0]), members[1..]);
    }
  }

  lemma {:induction false} NoMoreOf(found: Found, members: seq<Member>, name: bytes)
    requires forall j :: 0 <= j < |members| && members[j].key == name ==> members[j].item == Null
    requires name in found.extensions
    ensures var extensions := ReadMembers(found, members).extensions;
            name in extensions && extensions[name] == found.extensions[name]
    decreases |members|
  {
    hide ReservedAs, DecodeAttribute, ValidName;
    if members != [] {
      NoMoreOf(ReadMember(found, members[0]), members[1..], name);
    }
  }

  /** Reading an extension changes nothing of it: written again it is the member it was read from. */
  lemma DecodedIsMember(member: Json)
    requires DecodeAttribute(member).Ok?
    ensures var v := DecodeAttribute(member).value; PlainValue(v) && EncodeAttribute(v) == member
  {
  }

  ghost predicate Present(members: seq<Member>, name: bytes, i: nat) {
    i < |members| && members[i].key == name && members[i].item != Null
  }

  lemma {:induction false} LastExists(members: seq<Member>, name: bytes, i: nat)
    requires Present(members, name, i)
    ensures exists last: nat :: LastOf(members, name, last)
    decreases |members| - i
  {
    if j: nat :| i < j && Present(members, name, j) {
      LastExists(members, name, j);
    } else {
      forall j | i < j < |members| && members[j].key == name
        ensures members[j].item == Null
      {
        assert !Present(members, name, j);
      }
      assert LastOf(members, name, i);
    }
  }

  lemma {:induction false} ExtensionHasMember(found: Found, members: seq<Member>, name: bytes)
    requires name in ReadMembers(found, members).extensions && name !in found.extensions
    ensures exists i: nat :: Present(members, name, i)
    decreases |members|
  {
    hide ReservedAs, DecodeAttribute, ValidName;
    if members != [] {
      var next := ReadMember(found, members[0]);
      if name in next.extensions {
        assert Present(members, name, 0);
      } else {
        ExtensionHasMember(next, members[1..], name);
        var i: nat :| Present(members[1..], name, i);
        assert Present(members, name, i + 1);
      }
    }
  }

  /** The extensions of an accepted document are exactly the members of its other names that are not null,
      the last of a name winning, each with the value it has there: no number truncated, no text changed. */
  lemma {:induction false} ExtensionsAreMembers(document: Json, name: bytes)
    requires FromValue(document).Ok? && ReservedAs(name).None?
    ensures var extensions := FromValue(document).value.rest.extensions;
            && (name in extensions <==> exists i: nat :: LastOf(document.members, name, i))
            && forall i: nat :: LastOf(document.members, name, i)
                 ==> name in extensions && Renderable(extensions[name])
                     && EncodeAttribute(extensions[name]) == document.members[i].item
  {
    hide ReservedAs, ReadMembers, DecodeData, RequiredText, OptionalText, MakeRequired, MakeOptional, MakeContentType,
      DecodeAttribute, EncodeAttribute, Present;
    var found := ReadMembers(NOTHING_FOUND, document.members);
    if name in found.extensions {
      ExtensionHasMember(NOTHING_FOUND, document.members, name);
      var i: nat :| Present(document.members, name, i);
      LastExists(document.members, name, i);
    }
    forall i: nat | LastOf(document.members, name, i)
      ensures name in found.extensions && Renderable(found.extensions[name])
      ensures EncodeAttribute(found.extensions[name]) == document.members[i].item
    {
      LastMemberIsRead(NOTHING_FOUND, document.members, name, i);
      DecodedIsMember(document.members[i].item);
    }
  }

  // Reading what was written

  lemma {:induction false} ReadSplit(found: Found, a: seq<Member>, b: seq<Member>)
    ensures ReadMembers(found, a + b) == ReadMembers(ReadMembers(found, a), b)
    decreases |a|
  {
    hide ReadMember;
    if a == [] {
      assert a + b == b;
    } else {
      assert (a + b)[0] == a[0] && (a + b)[1..] == a[1..] + b;
      ReadSplit(ReadMember(found, a[0]), a[1..], b);
    }
  }

  function WithSlot(slots: map<Reserved, Json>, r: Reserved, item: Json): map<Reserved, Json> {
    slots[r := item]
  }

  function WithOptional(slots: map<Reserved, Json>, r: Reserved, text: Option<bytes>): map<Reserved, Json> {
    if text.Some? then slots[r := Str(text.value)] else slots
  }

  lemma ReadItem(found: Found, r: Reserved, item: Json)
    requires r !in found.slots
    ensures ReadMembers(found, [Item(r, item)]) == found.(slots := WithSlot(found.slots, r, item))
  {
    hide NameOf, ReservedAs, ReadExtension;
    ReservedAsName(r);
    assert [Item(r, item)][1..] == [];
  }

  lemma ReadAnother(found: Found, before: seq<Member>, r: Reserved, item: Json)
    requires r !in ReadMembers(found, before).slots
    ensures var was := ReadMembers(found, before);
            ReadMembers(found, before + [Item(r, item)]) == was.(slots := WithSlot(was.slots, r, item))
  {
    hide ReadMembers, WithSlot;
    ReadSplit(found, before, [Item(r, item)]);
    ReadItem(ReadMembers(found, before), r, item);
  }

  lemma ReadOptional(found: Found, before: seq<Member>, r: Reserved, text: Option<bytes>)
    requires r !in ReadMembers(found, before).slots
    ensures var was := ReadMembers(found, before);
            ReadMembers(found, before + OptionalItem(r, text)) == was.(slots := WithOptional(was.slots, r, text))
  {
    hide ReadMembers;
    if text.Some? {
      ReadAnother(found, before, r, Str(text.value));
    } else {
      assert before + [] == before;
    }
  }

  function RequiredSlots(e: Event): map<Reserved, Json> {
    map[SpecVersion := Str(VERSION), Id := Str(e.id), Source := Str(e.source), Type := Str(e.kind)]
  }

  lemma ReadRequired(e: Event)
    ensures ReadMembers(NOTHING_FOUND, RequiredMembers(e)) == Found(RequiredSlots(e), map[], None)
  {
    hide ReadMembers, Item, VERSION;
    var version, id, source := Item(SpecVersion, Str(VERSION)), Item(Id, Str(e.id)), Item(Source, Str(e.source));
    ReadItem(NOTHING_FOUND, SpecVersion, Str(VERSION));
    ReadAnother(NOTHING_FOUND, [version], Id, Str(e.id));
    assert [version] + [id] == [version, id];
    ReadAnother(NOTHING_FOUND, [version, id], Source, Str(e.source));
    assert [version, id] + [source] == [version, id, source];
    ReadAnother(NOTHING_FOUND, [version, id, source], Type, Str(e.kind));
    assert [version, id, source] + [Item(Type, Str(e.kind))] == RequiredMembers(e);
  }

  function ContextSlots(e: Event): map<Reserved, Json>
    requires RenderableOptions(e.rest)
  {
    WithOptional(
      WithOptional(
        WithOptional(
          WithOptional(RequiredSlots(e), DataContentType, e.rest.datacontenttype),
          DataSchema, e.rest.dataschema),
        Subject, e.rest.subject),
      Attributes.Time, TimeText(e.rest))
  }

  lemma ReadContextMembers(e: Event)
    requires RenderableOptions(e.rest)
    ensures ReadMembers(NOTHING_FOUND, ContextMembers(e)) == Found(ContextSlots(e), map[], None)
  {
    hide ReadMembers, RequiredMembers, OptionalItem, RenderableOptions, TimeText;
    ReadRequired(e);
    var m := RequiredMembers(e);
    ReadOptional(NOTHING_FOUND, m, DataContentType, e.rest.datacontenttype);
    m := m + OptionalItem(DataContentType, e.rest.datacontenttype);
    ReadOptional(NOTHING_FOUND, m, DataSchema, e.rest.dataschema);
    m := m + OptionalItem(DataSchema, e.rest.dataschema);
    ReadOptional(NOTHING_FOUND, m, Subject, e.rest.subject);
    m := m + OptionalItem(Subject, e.rest.subject);
    ReadOptional(NOTHING_FOUND, m, Attributes.Time, TimeText(e.rest));
  }

  lemma AttributeDecodes(v: AttributeValue)
    requires Renderable(v)
    ensures EncodeAttribute(v) != Null && DecodeAttribute(EncodeAttribute(v)) == Ok(NormalAttribute(v))
  {
    hide Base64.Encode, Render, CanRender;
  }

  lemma ReadExtensionMember(found: Found, name: bytes, v: AttributeValue)
    requires Renderable(v) && MakeExtensionName(name).Ok? && found.failure.None?
    ensures ReadMember(found, Member(name, EncodeAttribute(v))) == found.(extensions := found.extensions[name := NormalAttribute(v)])
  {
    hide EncodeAttribute, DecodeAttribute, NormalAttribute, Renderable, ReservedAs, ValidName;
    AttributeDecodes(v);
  }

  function NormalAt(names: seq<bytes>, extensions: map<bytes, AttributeValue>): map<bytes, AttributeValue>
    requires forall k :: k in names ==> k in extensions && Renderable(extensions[k])
  {
    map k | k in names :: NormalAttribute(extensions[k])
  }

  lemma ThenTheRest(names: seq<bytes>, extensions: map<bytes, AttributeValue>, before: map<bytes, AttributeValue>)
    requires names != [] && forall k :: k in names ==> k in extensions && Renderable(extensions[k])
    ensures before[names[0] := NormalAttribute(extensions[names[0]])] + NormalAt(names[1..], extensions)
            == before + NormalAt(names, extensions)
  {
    hide NormalAttribute, Renderable;
    assert names == [names[0]] + names[1..];
  }

  lemma {:induction false} ReadExtensionMembers(found: Found, names: seq<bytes>, extensions: map<bytes, AttributeValue>)
    requires forall k :: k in names ==> k in extensions && Renderable(extensions[k]) && MakeExtensionName(k).Ok?
    requires found.failure.None?
    ensures ReadMembers(found, ExtensionMembers(names, extensions))
            == found.(extensions := found.extensions + NormalAt(names, extensions))
    decreases |names|
  {
    hide ReadMember, EncodeAttribute, NormalAttribute, Renderable, MakeExtensionName;
    if names == [] {
      assert found.extensions + NormalAt(names, extensions) == found.extensions;
    } else {
      hide NormalAt;
      var name := names[0];
      ReadExtensionMember(found, name, extensions[name]);
      var members := ExtensionMembers(names, extensions);
      assert members[0] == Member(name, EncodeAttribute(extensions[name])) && members[1..] == ExtensionMembers(names[1..], extensions);
      ReadExtensionMembers(found.(extensions := found.extensions[name := NormalAttribute(extensions[name])]), names[1..], extensions);
      ThenTheRest(names, extensions, found.extensions);
    }
  }

  lemma ReadAllExtensions(found: Found, extensions: map<bytes, AttributeValue>)
    requires forall k :: k in extensions ==> Renderable(extensions[k]) && MakeExtensionName(k).Ok?
    requires found.failure.None? && found.extensions == map[]
    ensures ReadMembers(found, ExtensionMembers(Order.Sorted(extensions.Keys), extensions))
            == found.(extensions := NormalExtensions(extensions))
  {
    hide ReadMembers, ExtensionMembers, NormalAttribute, Renderable, MakeExtensionName, Order.Sorted;
    var names := Order.Sorted(extensions.Keys);
    ReadExtensionMembers(found, names, extensions);
    assert map[] + NormalAt(names, extensions) == NormalExtensions(extensions);
  }

  function DataSlots(slots: map<Reserved, Json>, data: Payload, codec: Codec): map<Reserved, Json>
    requires DataMember(data, codec).Ok?
  {
    match data
    case NoData => slots
    case BinaryData(octets) => slots[DataBase64 := Str(Base64.Encode(octets))]
    case TextData(text) => slots[Data := Str(text)]
    case JsonDocument(document) => slots[Data := document]
    case JsonText(raw) => slots[Data := codec.parse(raw).value]
  }

  lemma ReadDataMember(found: Found, data: Payload, codec: Codec)
    requires DataMember(data, codec).Ok? && Data !in found.slots && DataBase64 !in found.slots
    ensures ReadMembers(found, DataMember(data, codec).value) == found.(slots := DataSlots(found.slots, data, codec))
  {
    hide ReadMember, Base64.Encode, Item;
    var members := DataMember(data, codec).value;
    if members != [] {
      ReadDataItem(found, data, codec);
    }
  }

  lemma ReadDataItem(found: Found, data: Payload, codec: Codec)
    requires DataMember(data, codec).Ok? && Data !in found.slots && DataBase64 !in found.slots && !data.NoData?
    ensures ReadMembers(found, DataMember(data, codec).value) == found.(slots := DataSlots(found.slots, data, codec))
  {
    hide ReadMembers, Base64.Encode, Item;
    match data
    case BinaryData(octets) => ReadItem(found, DataBase64, Str(Base64.Encode(octets)));
    case TextData(text) => ReadItem(found, Data, Str(text));
    case JsonDocument(document) => ReadItem(found, Data, document);
    case JsonText(raw) => ReadItem(found, Data, codec.parse(raw).value);
  }

  /** Everything the reader finds in what the writer wrote. */
  function Wrote(e: Event, codec: Codec): Found
    requires RenderableOptions(e.rest) && DataMember(e.rest.data, codec).Ok?
  {
    Found(DataSlots(ContextSlots(e), e.rest.data, codec), NormalExtensions(e.rest.extensions), None)
  }

  lemma NoDataSlots(e: Event)
    requires RenderableOptions(e.rest)
    ensures Data !in ContextSlots(e) && DataBase64 !in ContextSlots(e)
  {
    hide VERSION, TimeText, RenderableOptions;
  }

  lemma {:induction false} ReadWritten(e: Event, codec: Codec)
    requires ValidEvent(e) && RenderableOptions(e.rest) && DataMember(e.rest.data, codec).Ok?
    ensures ReadMembers(NOTHING_FOUND, ToValue(e, codec).value.members) == Wrote(e, codec)
  {
    hide ReadMembers, ContextMembers, ExtensionMembers, DataMember, DataSlots, NormalExtensions, ContextSlots, MakeExtensionName,
      MakeContentType, OptionalOk, MakeRequired, Renderable, CanRender, Order.Sorted;
    NoDataSlots(e);
    var context, data := ContextMembers(e), DataMember(e.rest.data, codec).value;
    var extensions := ExtensionMembers(Order.Sorted(e.rest.extensions.Keys), e.rest.extensions);
    ReadContextMembers(e);
    ReadSplit(NOTHING_FOUND, context, extensions);
    ReadAllExtensions(Found(ContextSlots(e), map[], None), e.rest.extensions);
    ReadSplit(NOTHING_FOUND, context + extensions, data);
    ReadDataMember(Found(ContextSlots(e), NormalExtensions(e.rest.extensions), None), e.rest.data, codec);
  }

  lemma DataReads(e: Event, codec: Codec)
    requires RenderableOptions(e.rest) && DataMember(e.rest.data, codec).Ok?
    ensures DecodeData(Wrote(e, codec), e.rest.datacontenttype) == Ok(NormalData(e.rest.data, e.rest.datacontenttype, codec))
  {
    hide Base64.Encode, Base64.Decode, NormalExtensions, IsJsonContentType, Render, VERSION;
    if e.rest.data.BinaryData? {
      Base64.RoundTrip(e.rest.data.octets);
    }
  }

  /** What a claimed text is read as, for a required and for an optional attribute. */
  predicate Holds(slots: map<Reserved, Json>, r: Reserved, text: Option<bytes>) {
    (r in slots <==> text.Some?) && (r in slots ==> slots[r] == Str(text.value))
  }

  lemma SlotsOf(e: Event)
    requires RenderableOptions(e.rest)
    ensures var slots := ContextSlots(e);
            && Holds(slots, SpecVersion, Some(VERSION)) && Holds(slots, Id, Some(e.id)) && Holds(slots, Source, Some(e.source))
            && Holds(slots, Type, Some(e.kind)) && Holds(slots, DataContentType, e.rest.datacontenttype)
            && Holds(slots, DataSchema, e.rest.dataschema) && Holds(slots, Subject, e.rest.subject)
            && Holds(slots, Attributes.Time, TimeText(e.rest))
  {
    hide TimeText, VERSION, RenderableOptions;
  }

  lemma DataSlotsKeep(slots: map<Reserved, Json>, data: Payload, codec: Codec, r: Reserved, text: Option<bytes>)
    requires DataMember(data, codec).Ok? && r != Data && r != DataBase64 && Holds(slots, r, text)
    ensures Holds(DataSlots(slots, data, codec), r, text)
  {
    hide Base64.Encode;
  }

  lemma HeldIsRead(found: Found, r: Reserved, text: Option<bytes>)
    requires Holds(found.slots, r, text)
    ensures text.Some? ==> RequiredText(found, r) == Ok(text.value)
    ensures OptionalText(found, r) == Ok(text)
  {
  }

  lemma WroteReads(e: Event, codec: Codec, r: Reserved, text: Option<bytes>)
    requires RenderableOptions(e.rest) && DataMember(e.rest.data, codec).Ok?
    requires r != Data && r != DataBase64 && Holds(ContextSlots(e), r, text)
    ensures text.Some? ==> RequiredText(Wrote(e, codec), r) == Ok(text.value)
    ensures OptionalText(Wrote(e, codec), r) == Ok(text)
  {
    hide ContextSlots, DataSlots, NormalExtensions, Holds, RenderableOptions, DataMember, RequiredText, OptionalText;
    DataSlotsKeep(ContextSlots(e), e.rest.data, codec, r, text);
    HeldIsRead(Wrote(e, codec), r, text);
  }

  /** The required part of the context, read back. */
  lemma RequiredReads(e: Event, codec: Codec)
    requires ValidEvent(e) && RenderableOptions(e.rest) && DataMember(e.rest.data, codec).Ok?
    ensures var found := Wrote(e, codec);
            && RequiredText(found, SpecVersion) == Ok(VERSION) && StoreRequired(found, Id) == Ok(e.id)
            && StoreRequired(found, Source) == Ok(e.source) && StoreRequired(found, Type) == Ok(e.kind)
  {
    hide RequiredText, Wrote, ContextSlots, RenderableOptions, VERSION, DataMember, MakeRequired, ValidOptions, Holds;
    SlotsOf(e);
    WroteReads(e, codec, SpecVersion, Some(VERSION));
    WroteReads(e, codec, Id, Some(e.id));
    WroteReads(e, codec, Source, Some(e.source));
    WroteReads(e, codec, Type, Some(e.kind));
    MadeIsItself(e.id);
    MadeIsItself(e.source);
    MadeIsItself(e.kind);
  }

  lemma OptionalReads(e: Event, codec: Codec)
    requires ValidEvent(e) && RenderableOptions(e.rest) && DataMember(e.rest.data, codec).Ok?
    ensures var found := Wrote(e, codec);
            && StoreOptional(found, DataContentType, MakeContentType) == Ok(e.rest.datacontenttype)
            && StoreOptional(found, DataSchema, MakeOptional) == Ok(e.rest.dataschema)
            && StoreOptional(found, Subject, MakeOptional) == Ok(e.rest.subject)
            && OptionalText(found, Attributes.Time) == Ok(TimeText(e.rest))
  {
    hide OptionalText, Wrote, ContextSlots, RenderableOptions, DataMember, MakeOptional, MakeContentType, MakeExtensionName,
      TimeText, Holds;
    SlotsOf(e);
    WroteReads(e, codec, DataContentType, e.rest.datacontenttype);
    WroteReads(e, codec, DataSchema, e.rest.dataschema);
    WroteReads(e, codec, Subject, e.rest.subject);
    WroteReads(e, codec, Attributes.Time, TimeText(e.rest));
    TextsAreThemselves(e.rest);
  }

  lemma TextsAreThemselves(o: Options)
    requires ValidOptions(o)
    ensures o.datacontenttype.Some? ==> MakeContentType(o.datacontenttype.value) == Ok(o.datacontenttype.value)
    ensures o.dataschema.Some? ==> MakeOptional(o.dataschema.value) == Ok(o.dataschema.value)
    ensures o.subject.Some? ==> MakeOptional(o.subject.value) == Ok(o.subject.value)
  {
    hide MakeContentType, MakeOptional, MakeExtensionName;
    if o.datacontenttype.Some? {
      MadeIsItself(o.datacontenttype.value);
    }
    if o.dataschema.Some? {
      MadeIsItself(o.dataschema.value);
    }
    if o.subject.Some? {
      MadeIsItself(o.subject.value);
    }
  }

  lemma ContextReads(e: Event, codec: Codec)
    requires ValidEvent(e) && RenderableOptions(e.rest) && DataMember(e.rest.data, codec).Ok?
    ensures var time := StoreTime(Wrote(e, codec));
            ReadContext(Wrote(e, codec))
            == if time.Err? then Err(time.error)
               else Ok(Builder(Some(e.id), Some(e.source), Some(e.kind),
                               e.rest.(time := time.value, extensions := NormalExtensions(e.rest.extensions), data := NoData)))
  {
    hide RequiredText, StoreRequired, StoreOptional, DataSlots, ContextSlots, NormalExtensions, RenderableOptions, StoreTime,
      VERSION, DataMember, ValidEvent;
    RequiredReads(e, codec);
    OptionalReads(e, codec);
  }

  lemma TimeIsStored(e: Event, codec: Codec)
    requires ValidEvent(e) && RenderableOptions(e.rest) && DataMember(e.rest.data, codec).Ok?
    ensures StoreTime(Wrote(e, codec)) == Ok(e.rest.time) <==> ExactTime(e.rest)
  {
    hide OptionalText, StoreOptional, Wrote, Parse, Exact, Render, Renderable, DataMember, ValidEvent, CanRender;
    OptionalReads(e, codec);
    TimeTextIs(e.rest);
    if e.rest.time.Some? {
      RenderParsesExactly(e.rest.time.value);
    }
  }

  /** An event written as JSON reads back as its normal form exactly when its time is one that a text
      could have given: no offset of a day or more, no octets of a second the fraction does not show. */
  lemma JsonRoundTrip(e: Event, codec: Codec)
    requires ValidEvent(e) && RenderableOptions(e.rest) && ToValue(e, codec).Ok?
    ensures DataMember(e.rest.data, codec).Ok?
    ensures FromValue(ToValue(e, codec).value) == Ok(JsonNormal(e, codec)) <==> ExactTime(e.rest)
  {
    hide ReadMembers, ContextMembers, ExtensionMembers, Wrote, ReadContext, DecodeData, NormalExtensions, NormalData,
      ValidEvent, ExactTime, StoreTime, DataMember, RenderableOptions;
    ReadWritten(e, codec);
    ContextReads(e, codec);
    DataReads(e, codec);
    TimeIsStored(e, codec);
    WroteWithoutFailure(e, codec);
  }

  lemma WroteWithoutFailure(e: Event, codec: Codec)
    requires RenderableOptions(e.rest) && DataMember(e.rest.data, codec).Ok?
    ensures Wrote(e, codec).failure.None?
  {
  }

  // What was read

  /** A member of an extension's name that is null is as good as absent, even where the name is no valid one. */
  lemma NullExtensionIsAbsent(before: seq<Member>, name: bytes, after: seq<Member>)
    requires ReservedAs(name).None?
    ensures FromValue(Object(before + [Member(name, Null)] + after)) == FromValue(Object(before + after))
  {
    hide ReservedAs, BuildFound, ReadMembers;
    var found, absent := ReadMembers(NOTHING_FOUND, before), Member(name, Null);
    ReadSplit(NOTHING_FOUND, before + [absent], after);
    ReadSplit(NOTHING_FOUND, before, [absent]);
    ReadSplit(NOTHING_FOUND, before, after);
    ReadNull(found, name);
  }

  lemma ReadNull(found: Found, name: bytes)
    requires ReservedAs(name).None?
    ensures ReadMembers(found, [Member(name, Null)]) == found
  {
    hide ReservedAs;
    assert [Member(name, Null)][1..] == [];
  }

  /** What an optional member stands for: nothing when it is absent or null. */
  predicate Stands(member: Option<Json>, text: Option<bytes>) {
    if member.None? || member.value == Null then text.None? else text.Some? && member.value == Str(text.value)
  }

  /** The time says what the member does, when the member says anything. */
  predicate StandsForTime(member: Option<Json>, time: Option<Timestamp>) {
    if member.None? || member.value == Null then time.None?
    else member.value.Str? && time.Some? && Parse(member.value.text) == Ok(time.value)
  }

  /** The attributes of an accepted document are the first members of their names, the time parsed; its
      version is 1.0; and of `data` and `data_base64` it has one at most. */
  lemma ReadIsFound(document: Json)
    requires FromValue(document).Ok?
    ensures var e := FromValue(document).value;
            && Find(document, NameOf(SpecVersion)) == Some(Str(VERSION)) && Find(document, NameOf(Id)) == Some(Str(e.id))
            && Find(document, NameOf(Source)) == Some(Str(e.source)) && Find(document, NameOf(Type)) == Some(Str(e.kind))
            && Stands(Find(document, NameOf(DataContentType)), e.rest.datacontenttype)
            && Stands(Find(document, NameOf(DataSchema)), e.rest.dataschema)
            && Stands(Find(document, NameOf(Subject)), e.rest.subject)
            && StandsForTime(Find(document, NameOf(Attributes.Time)), e.rest.time)
            && !(Find(document, NameOf(Data)).Some? && Find(document, NameOf(DataBase64)).Some?)
  {
    hide ReadMembers, NameOf, Find, MakeRequired, MakeOptional, MakeContentType, StoreTime, VERSION, Base64.Decode,
      IsJsonContentType, RequiredText, OptionalText, StandsForTime;
    var found := ReadMembers(NOTHING_FOUND, document.members);
    forall r: Reserved
      ensures (if r in found.slots then Some(found.slots[r]) else None) == Find(document, NameOf(r))
    {
      FirstMemberIsRead(document, r);
    }
    StoredIs(found, Id);
    StoredIs(found, Source);
    StoredIs(found, Type);
    StoredIs(found, SpecVersion);
    StoredOptionalIs(found, DataContentType);
    StoredOptionalIs(found, DataSchema);
    StoredOptionalIs(found, Subject);
    StoredTimeIs(found);
  }

  lemma StoredTimeIs(found: Found)
    ensures var slot := if Attributes.Time in found.slots then Some(found.slots[Attributes.Time]) else None;
            StoreTime(found).Ok? ==> StandsForTime(slot, StoreTime(found).value)
  {
    hide Parse;
  }

  /** The document's own time, if it has one, is written between the ends of the 64-bit clock. */
  predicate TimeOnClock(document: Json) {
    var member := Find(document, NameOf(Attributes.Time));
    member.Some? && member.value.Str? && Match(member.value.text).Some? && WellShaped(Match(member.value.text).value)
    ==> WrittenOnClock(Match(member.value.text).value)
  }

  /** Whether an accepted document can be written again is told by the text of its time. */
  lemma WritableExactly(document: Json)
    requires FromValue(document).Ok?
    ensures RenderableOptions(FromValue(document).value.rest) <==> TimeOnClock(document)
  {
    hide FromValue, ValidEvent, ExactTime, CanRender, PlainExtensions, DataMember, NormalData, NormalExtensions, Renderable,
      Match, WellShaped, WrittenOnClock, ReadFields, Find, NameOf, Stands;
    ReadIsFound(document);
    ReadIsValid(document);
    PlainIsNormal(FromValue(document).value.rest.extensions);
    var time := FromValue(document).value.rest.time;
    if time.Some? {
      CanRenderExactly(Find(document, NameOf(Attributes.Time)).value.text);
    }
  }

  /** The data of an accepted document is its `data_base64` decoded or its `data`, which is a text under a
      media type that is not JSON. */
  lemma PayloadIsFound(document: Json)
    requires FromValue(document).Ok?
    ensures var o := FromValue(document).value.rest;
            var data, base64 := Find(document, NameOf(Data)), Find(document, NameOf(DataBase64));
            match o.data
            case NoData => data.None? && base64.None?
            case BinaryData(octets) => data.None? && base64.Some? && base64.value.Str? && Base64.Decode(base64.value.text) == Ok(octets)
            case TextData(text) => base64.None? && data == Some(Str(text)) && DeclaredNonJson(o.datacontenttype)
            case JsonDocument(value) => base64.None? && data == Some(value) && !(DeclaredNonJson(o.datacontenttype) && value.Str?)
            case JsonText(_) => false
  {
    hide ReadMembers, NameOf, Find, ReadContext, Base64.Decode, DeclaredNonJson;
    FirstMemberIsRead(document, Data);
    FirstMemberIsRead(document, DataBase64);
    var found := ReadMembers(NOTHING_FOUND, document.members);
    assert DecodeData(found, ReadContext(found).value.rest.datacontenttype).Ok?;
  }

  lemma StoredIs(found: Found, r: Reserved)
    ensures RequiredText(found, r).Ok? ==> r in found.slots && found.slots[r] == Str(RequiredText(found, r).value)
    ensures StoreRequired(found, r).Ok? ==> r in found.slots && found.slots[r] == Str(StoreRequired(found, r).value)
  {
    hide MakeRequired;
    if RequiredText(found, r).Ok? {
      MadeIsItself(RequiredText(found, r).value);
    }
  }

  lemma StoredOptionalIs(found: Found, r: Reserved)
    ensures var slot := if r in found.slots then Some(found.slots[r]) else None;
            && (StoreOptional(found, r, MakeOptional).Ok? ==> Stands(slot, StoreOptional(found, r, MakeOptional).value))
            && (StoreOptional(found, r, MakeContentType).Ok? ==> Stands(slot, StoreOptional(found, r, MakeContentType).value))
  {
    hide MakeOptional, MakeContentType;
    var text := OptionalText(found, r);
    if text.Ok? && text.value.Some? {
      MadeIsItself(text.value.value);
    }
  }

  predicate PlainValue(v: AttributeValue) {
    v.Bool? || v.Integer? || v.Text?
  }

  ghost predicate PlainExtensions(extensions: map<bytes, AttributeValue>) {
    forall k :: k in extensions ==> MakeExtensionName(k).Ok? && PlainValue(extensions[k])
  }

  lemma {:induction false} FoundIsPlain(found: Found, members: seq<Member>)
    requires PlainExtensions(found.extensions)
    ensures PlainExtensions(ReadMembers(found, members).extensions)
    decreases |members|
  {
    hide ReservedAs, ValidName;
    if members != [] {
      FoundIsPlain(ReadMember(found, members[0]), members[1..]);
    }
  }

  lemma ContextIsValid(found: Found)
    requires ReadContext(found).Ok? && PlainExtensions(found.extensions)
    ensures var b := ReadContext(found).value;
            && b.id.Some? && MakeRequired(b.id.value).Ok? && b.source.Some? && MakeRequired(b.source.value).Ok?
            && b.kind.Some? && MakeRequired(b.kind.value).Ok?
            && ValidOptions(b.rest) && ExactTime(b.rest) && b.rest.extensions == found.extensions
  {
    hide RequiredText, StoreRequired, StoreOptional, StoreTime, MakeContentType, MakeOptional, MakeRequired, Exact,
      MakeExtensionName, MakeVersion, PlainValue;
    RequiredIsMade(found, Id);
    RequiredIsMade(found, Source);
    RequiredIsMade(found, Type);
    OptionalIsMade(found, DataContentType);
    OptionalIsMade(found, DataSchema);
    OptionalIsMade(found, Subject);
    TimeIsExact(found);
  }

  lemma RequiredIsMade(found: Found, r: Reserved)
    ensures StoreRequired(found, r).Ok? ==> MakeRequired(StoreRequired(found, r).value).Ok?
  {
    hide RequiredText, MakeRequired;
    if RequiredText(found, r).Ok? {
      MadeIsItself(RequiredText(found, r).value);
    }
  }

  lemma OptionalIsMade(found: Found, r: Reserved)
    ensures var made := StoreOptional(found, r, MakeOptional);
            made.Ok? && made.value.Some? ==> MakeOptional(made.value.value).Ok?
    ensures var made := StoreOptional(found, r, MakeContentType);
            made.Ok? && made.value.Some? ==> MakeContentType(made.value.value).Ok?
  {
    hide OptionalText, MakeOptional, MakeContentType;
    var text := OptionalText(found, r);
    if text.Ok? && text.value.Some? {
      MadeIsItself(text.value.value);
    }
  }

  lemma TimeIsExact(found: Found)
    ensures var time := StoreTime(found); time.Ok? && time.value.Some? ==> Exact(time.value.value)
  {
    hide OptionalText, Parse, Exact;
    var text := OptionalText(found, Attributes.Time);
    if text.Ok? && text.value.Some? && Parse(text.value.value).Ok? {
      ParsedIsExact(text.value.value);
    }
  }

  lemma DataIsNormal(found: Found, datacontenttype: Option<bytes>, codec: Codec)
    requires DecodeData(found, datacontenttype).Ok?
    ensures var data := DecodeData(found, datacontenttype).value;
            DataMember(data, codec).Ok? && NormalData(data, datacontenttype, codec) == data
  {
    hide Base64.Encode, Base64.Decode, IsJsonContentType;
  }

  lemma PlainIsNormal(extensions: map<bytes, AttributeValue>)
    requires PlainExtensions(extensions)
    ensures (forall k :: k in extensions ==> Renderable(extensions[k])) && NormalExtensions(extensions) == extensions
  {
    hide ReservedAs, ValidName;
    forall k | k in extensions
      ensures Renderable(extensions[k]) && NormalAttribute(extensions[k]) == extensions[k]
    {
    }
  }

  lemma ReadIsValid(document: Json)
    requires FromValue(document).Ok?
    ensures var e := FromValue(document).value;
            ValidEvent(e) && ExactTime(e.rest) && PlainExtensions(e.rest.extensions)
  {
    hide ReadMembers, ReadContext, DecodeData, PlainExtensions, CheckText, Subtype, Exact, ValidName, ReservedAs;
    var found := ReadMembers(NOTHING_FOUND, document.members);
    assert PlainExtensions(NOTHING_FOUND.extensions) by { NothingIsPlain(); }
    FoundIsPlain(NOTHING_FOUND, document.members);
    ContextIsValid(found);
  }

  lemma NothingIsPlain()
    ensures PlainExtensions(map[])
  {
  }

  lemma ReadDataIsNormal(document: Json, codec: Codec)
    requires FromValue(document).Ok?
    ensures var o := FromValue(document).value.rest;
            DataMember(o.data, codec).Ok? && NormalData(o.data, o.datacontenttype, codec) == o.data
  {
    hide ReadMembers, ReadContext, DecodeData, DataMember, NormalData;
    var found := ReadMembers(NOTHING_FOUND, document.members);
    DataIsNormal(found, ReadContext(found).value.rest.datacontenttype, codec);
  }

  /** The event read from any document that is accepted: what it was read as is already normal, and it can
      be written unless its time is one that cannot be rendered. */
  lemma ReadIsNormal(document: Json, codec: Codec)
    requires FromValue(document).Ok?
    ensures var e := FromValue(document).value;
            && ValidEvent(e) && ExactTime(e.rest)
            && (RenderableOptions(e.rest) <==> (e.rest.time.Some? ==> CanRender(e.rest.time.value)))
            && (RenderableOptions(e.rest) ==> ToValue(e, codec).Ok? && JsonNormal(e, codec) == e)
  {
    hide FromValue, ValidEvent, ExactTime, CanRender, PlainExtensions, DataMember, NormalData, NormalExtensions, Renderable,
      ContextMembers, ExtensionMembers;
    ReadIsValid(document);
    ReadDataIsNormal(document, codec);
    PlainIsNormal(FromValue(document).value.rest.extensions);
  }

  /** Reading any accepted document whose time is on the clock, writing the event and reading it again gives
      an equal event. */
  lemma ReadIsFixedPoint(document: Json, codec: Codec)
    requires FromValue(document).Ok? && TimeOnClock(document)
    ensures var e := FromValue(document).value;
            && RenderableOptions(e.rest) && ToValue(e, codec).Ok?
            && FromValue(ToValue(e, codec).value) == FromValue(document)
  {
    hide FromValue, ValidEvent, ExactTime, RenderableOptions, JsonNormal, ToValue, TimeOnClock;
    WritableExactly(document);
    ReadIsNormal(document, codec);
    JsonRoundTrip(FromValue(document).value, codec);
  }

  // A document that is accepted and cannot be written again

  /** A document with the four required members and a time. */
  function Timed(e: Event, text: bytes): Json {
    Object(RequiredMembers(e) + [Item(Attributes.Time, Str(text))])
  }

  lemma TimedIsRead(e: Event, text: bytes)
    requires ValidEvent(e) && Parse(text).Ok?
    ensures FromValue(Timed(e, text)) == Ok(e.(rest := NO_OPTIONS.(time := Some(Parse(text).value))))
  {
    hide ReadMembers, RequiredMembers, BuildFound;
    ReadRequired(e);
    ReadAnother(NOTHING_FOUND, RequiredMembers(e), Attributes.Time, Str(text));
    TimedIsBuilt(e, text);
  }

  function TimedSlots(e: Event, text: bytes): map<Reserved, Json> {
    WithSlot(RequiredSlots(e), Attributes.Time, Str(text))
  }

  lemma TimedHolds(e: Event, text: bytes)
    ensures var slots := TimedSlots(e, text);
            && Holds(slots, SpecVersion, Some(VERSION)) && Holds(slots, Id, Some(e.id)) && Holds(slots, Source, Some(e.source))
            && Holds(slots, Type, Some(e.kind)) && Holds(slots, DataContentType, None) && Holds(slots, DataSchema, None)
            && Holds(slots, Subject, None) && Holds(slots, Attributes.Time, Some(text)) && Data !in slots && DataBase64 !in slots
  {
    hide VERSION;
  }

  lemma RequiredIsStored(found: Found, r: Reserved, text: bytes)
    requires Holds(found.slots, r, Some(text)) && MakeRequired(text).Ok?
    ensures StoreRequired(found, r) == Ok(text)
  {
    hide MakeRequired, Holds, RequiredText;
    HeldIsRead(found, r, Some(text));
    MadeIsItself(text);
  }

  lemma TimedIsBuilt(e: Event, text: bytes)
    requires ValidEvent(e) && Parse(text).Ok?
    ensures BuildFound(Found(TimedSlots(e, text), map[], None)) == Ok(e.(rest := NO_OPTIONS.(time := Some(Parse(text).value))))
  {
    hide MakeRequired, Parse, VERSION, ValidOptions, TimedSlots, Holds, RequiredText, OptionalText, StoreRequired;
    var found := Found(TimedSlots(e, text), map[], None);
    TimedHolds(e, text);
    HeldIsRead(found, SpecVersion, Some(VERSION));
    RequiredIsStored(found, Id, e.id);
    RequiredIsStored(found, Source, e.source);
    RequiredIsStored(found, Type, e.kind);
    HeldIsRead(found, DataContentType, None);
    HeldIsRead(found, DataSchema, None);
    HeldIsRead(found, Subject, None);
    HeldIsRead(found, Attributes.Time, Some(text));
  }

  /** 2262-04-12T00:47:15+01:00 is such a time, and so is 1677-09-21T00:12:45Z. */
  lemma AcceptedButNotWritten(e: Event)
    requires ValidEvent(e)
    ensures var late := FromValue(Timed(e, Layout(PastTheClock()))); late.Ok? && !RenderableOptions(late.value.rest)
    ensures var early := FromValue(Timed(e, Layout(BeforeTheClock()))); early.Ok? && !RenderableOptions(early.value.rest)
  {
    hide Parse, Layout, PastTheClock, BeforeTheClock, CanRender, FromValue, ValidEvent, Timed;
    AcceptedPastTheClock();
    TimedIsRead(e, Layout(PastTheClock()));
    AcceptedBeforeTheClock();
    TimedIsRead(e, Layout(BeforeTheClock()));
  }
}
