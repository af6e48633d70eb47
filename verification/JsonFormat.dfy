/** The CloudEvents JSON format over a DOM (include/cloudevents/format/json_format.hpp): to_value and
    from_value. The slicing of `data` out of the source text is not part of this model. */
module JsonFormat {
  import opened Wrappers
  import opened JsonDom
  import opened Attributes
  import opened Timestamp
  import Base64
  import Order
  import TimestampLaws

  // Writing

  predicate Renderable(v: AttributeValue) {
    v.Instant? ==> CanRender(v.time)
  }

  /** The times of the event can be rendered on the 64-bit clock. */
  predicate RenderableOptions(o: Options) {
    && (o.time.Some? ==> CanRender(o.time.value))
    && forall name :: name in o.extensions ==> Renderable(o.extensions[name])
  }

  /** The time is one that a text can give. */
  predicate ExactTime(o: Options) {
    o.time.Some? ==> TimestampLaws.Exact(o.time.value)
  }

  function EncodeAttribute(v: AttributeValue): Json
    requires Renderable(v)
  {
    match v
    case Bool(b) => Boolean(b)
    case Integer(i) => Number(i)
    case Text(text) => Str(text)
    case Binary(octets) => Str(Base64.Encode(octets))
    case Instant(t) => Str(Render(t))
    case Uri(text) => Str(text)
    case UriRef(text) => Str(text)
  }

  function Item(r: Reserved, item: Json): Member {
    Member(NameOf(r), item)
  }

  function OptionalItem(r: Reserved, text: Option<bytes>): seq<Member> {
    if text.Some? then [Item(r, Str(text.value))] else []
  }

  function TimeText(o: Options): Option<bytes>
    requires RenderableOptions(o)
  {
    if o.time.Some? then Some(Render(o.time.value)) else None
  }

  lemma TimeTextIs(o: Options)
    requires RenderableOptions(o)
    ensures TimeText(o) == if o.time.Some? then Some(Render(o.time.value)) else None
  {
  }

  /** The members, in the order they are set. */
  function RequiredMembers(e: Event): seq<Member> {
    [Item(SpecVersion, Str(VERSION)), Item(Id, Str(e.id)), Item(Source, Str(e.source)), Item(Type, Str(e.kind))]
  }

  function ContextMembers(e: Event): seq<Member>
    requires RenderableOptions(e.rest)
  {
    RequiredMembers(e)
    + OptionalItem(DataContentType, e.rest.datacontenttype)
    + OptionalItem(DataSchema, e.rest.dataschema)
    + OptionalItem(Subject, e.rest.subject)
    + OptionalItem(Attributes.Time, TimeText(e.rest))
  }

  function ExtensionMembers(names: seq<bytes>, extensions: map<bytes, AttributeValue>): seq<Member>
    requires forall k :: k in names ==> k in extensions && Renderable(extensions[k])
  {
    if names == [] then []
    else [Member(names[0], EncodeAttribute(extensions[names[0]]))] + ExtensionMembers(names[1..], extensions)
  }

  function DataMember(data: Payload, codec: Codec): Result<seq<Member>> {
    match data
    case NoData => Ok([])
    case BinaryData(octets) => Ok([Item(DataBase64, Str(Base64.Encode(octets)))])
    case TextData(text) => Ok([Item(Data, Str(text))])
    case JsonDocument(document) => Ok([Item(Data, document)])
    case JsonText(raw) =>
      var parsed := codec.parse(raw);
      if parsed.Err? then Err(ParseError) else Ok([Item(Data, parsed.value)])
  }

  function ToValue(e: Event, codec: Codec): Result<Json>
    requires RenderableOptions(e.rest)
  {
    var data :- DataMember(e.rest.data, codec);
    Ok(Object(ContextMembers(e) + ExtensionMembers(Order.Sorted(e.rest.extensions.Keys), e.rest.extensions) + data))
  }

  // Reading

  function DecodeAttribute(member: Json): Result<AttributeValue> {
    match member
    case Boolean(b) => Ok(Bool(b))
    case Number(i) => if -0x8000_0000 <= i < 0x8000_0000 then Ok(Integer(i)) else Err(OutOfRange)
    case Str(text) => Ok(Text(text))
    case _ => Err(TypeMismatch)
  }

  /** A null extension is as good as absent, whatever its name. */
  function ReadExtension(name: bytes, member: Json, extensions: map<bytes, AttributeValue>): Result<map<bytes, AttributeValue>> {
    if member == Null then Ok(extensions) else
    var made :- MakeExtensionName(name);
    var decoded :- DecodeAttribute(member);
    Ok(extensions[made := decoded])
  }

  /** The members claimed so far, first come first served; the extensions, the last of a name winning; and
      the first refusal of an extension, after which no extension is read. */
  datatype Found = Found(slots: map<Reserved, Json>, extensions: map<bytes, AttributeValue>, failure: Option<Errc>)

  const NOTHING_FOUND := Found(map[], map[], None)

  function ReadMember(found: Found, member: Member): Found {
    match ReservedAs(member.key)
    case Some(r) => if r in found.slots then found else found.(slots := found.slots[r := member.item])
    case None =>
      if found.failure.Some? then found else
      match ReadExtension(member.key, member.item, found.extensions)
      case Ok(extensions) => found.(extensions := extensions)
      case Err(e) => found.(failure := Some(e))
  }

  function ReadMembers(found: Found, members: seq<Member>): Found
    decreases |members|
  {
    if members == [] then found else ReadMembers(ReadMember(found, members[0]), members[1..])
  }

  function RequiredText(found: Found, r: Reserved): Result<bytes> {
    if r !in found.slots then Err(MissingRequiredAttribute)
    else if !found.slots[r].Str? then Err(InvalidAttributeValue)
    else Ok(found.slots[r].text)
  }

  function OptionalText(found: Found, r: Reserved): Result<Option<bytes>> {
    if r !in found.slots || found.slots[r] == Null then Ok(None)
    else if !found.slots[r].Str? then Err(InvalidAttributeValue)
    else Ok(Some(found.slots[r].text))
  }

  function StoreRequired(found: Found, r: Reserved): Result<bytes> {
    var text :- RequiredText(found, r);
    MakeRequired(text)
  }

  function Made(text: Option<bytes>, make: bytes -> Result<bytes>): Result<Option<bytes>> {
    if text.None? then Ok(None) else
    var made :- make(text.value);
    Ok(Some(made))
  }

  function StoreOptional(found: Found, r: Reserved, make: bytes -> Result<bytes>): Result<Option<bytes>> {
    var text :- OptionalText(found, r);
    Made(text, make)
  }

  function StoreTime(found: Found): Result<Option<Timestamp>> {
    var text :- OptionalText(found, Attributes.Time);
    if text.None? then Ok(None) else
    var parsed :- Parse(text.value);
    Ok(Some(parsed))
  }

  function ReadContext(found: Found): Result<Builder> {
    var version :- RequiredText(found, SpecVersion);
    var supported :- MakeVersion(version);
    var id :- StoreRequired(found, Id);
    var source :- StoreRequired(found, Source);
    var kind :- StoreRequired(found, Type);
    var datacontenttype :- StoreOptional(found, DataContentType, MakeContentType);
    var dataschema :- StoreOptional(found, DataSchema, MakeOptional);
    var subject :- StoreOptional(found, Subject, MakeOptional);
    var time :- StoreTime(found);
    Ok(Builder(Some(id), Some(source), Some(kind),
               Options(datacontenttype, dataschema, subject, time, found.extensions, NoData)))
  }

  predicate DeclaredNonJson(datacontenttype: Option<bytes>) {
    datacontenttype.Some? && !IsJsonContentType(datacontenttype.value)
  }

  function DecodeData(found: Found, datacontenttype: Option<bytes>): Result<Payload> {
    if Data in found.slots && DataBase64 in found.slots then Err(DataConflict)
    else if DataBase64 in found.slots then
      if !found.slots[DataBase64].Str? then Err(InvalidAttributeValue) else
      var decoded :- Base64.Decode(found.slots[DataBase64].text);
      Ok(BinaryData(decoded))
    else if Data !in found.slots then Ok(NoData)
    else
      var data := found.slots[Data];
      Ok(if DeclaredNonJson(datacontenttype) && data.Str? then TextData(data.text) else JsonDocument(data))
  }

  function BuildFound(found: Found): Result<Event> {
    var builder :- ReadContext(found);
    var data :- DecodeData(found, builder.rest.datacontenttype);
    if found.failure.Some? then Err(found.failure.value) else
    Build(builder.(rest := builder.rest.(data := data)))
  }

  function FromValue(document: Json): Result<Event> {
    if !document.Object? then Err(ParseError) else BuildFound(ReadMembers(NOTHING_FOUND, document.members))
  }

  // The loops of the source

  method ReadEvent(document: Json) returns (r: Result<Event>)
    ensures r == FromValue(document)
  {
    hide BuildFound, ReadMember;
    if !document.Object? {
      return Err(ParseError);
    }
    var found := NOTHING_FOUND;
    var members := document.members;
    assert members[0..] == members;
    for i := 0 to |members|
      invariant ReadMembers(NOTHING_FOUND, members) == ReadMembers(found, members[i..])
    {
      assert members[i..][0] == members[i] && members[i..][1..] == members[i + 1..];
      found := ReadMember(found, members[i]);
    }
    r := BuildFound(found);
  }

  /** The object holds the items set so far, under reserved names of the set and some extension names. */
  ghost predicate Holding(root: Json, used: set<Reserved>, names: seq<bytes>, members: seq<Member>) {
    && root == Object(members)
    && forall i :: 0 <= i < |members| ==>
         (exists r :: r in used && members[i].key == NameOf(r)) || members[i].key in names
  }

  lemma SetReserved(root: Json, used: set<Reserved>, names: seq<bytes>, members: seq<Member>, r: Reserved, item: Json)
    requires Holding(root, used, names, members) && r !in used
    requires forall name :: name in names ==> ReservedAs(name).None?
    ensures Holding(Set(root, NameOf(r), item), used + {r}, names, members + [Item(r, item)])
  {
    hide NameOf, ReservedAs;
    ReservedAsName(r);
    forall i | 0 <= i < |members|
      ensures members[i].key != NameOf(r)
    {
      if members[i].key !in names {
        var q :| q in used && members[i].key == NameOf(q);
        NamesDiffer(q, r);
      }
    }
    SetNew(members, NameOf(r), item);
  }

  lemma SetExtension(root: Json, used: set<Reserved>, names: seq<bytes>, members: seq<Member>, name: bytes, item: Json)
    requires Holding(root, used, names, members) && name !in names && ReservedAs(name).None?
    ensures Holding(Set(root, name, item), used, names + [name], members + [Member(name, item)])
  {
    hide NameOf, ReservedAs;
    forall r: Reserved {
      ReservedAsName(r);
    }
    SetNew(members, name, item);
  }

  method SetOptional(root: Json, r: Reserved, text: Option<bytes>, ghost used: set<Reserved>, ghost members: seq<Member>)
    returns (out: Json)
    requires Holding(root, used, [], members) && r !in used
    ensures Holding(out, used + {r}, [], members + OptionalItem(r, text))
  {
    out := root;
    if text.Some? {
      SetReserved(root, used, [], members, r, Str(text.value));
      out := Set(root, NameOf(r), Str(text.value));
    }
  }

  /** The reserved members that are not data. */
  const CONTEXT: set<Reserved> :=
    {SpecVersion, Id, Source, Type, DataContentType, DataSchema, Subject, Attributes.Time}

  method SetText(root: Json, r: Reserved, text: bytes, ghost used: set<Reserved>, ghost members: seq<Member>)
    returns (out: Json)
    requires Holding(root, used, [], members) && r !in used
    ensures Holding(out, used + {r}, [], members + [Item(r, Str(text))])
  {
    hide Holding, NameOf;
    SetReserved(root, used, [], members, r, Str(text));
    HoldingIs(root, used, [], members);
    out := Set(root, NameOf(r), Str(text));
  }

  /** `to_value_writing` up to the optional attributes. */
  method WriteRequired(e: Event) returns (root: Json)
    ensures Holding(root, {SpecVersion, Id, Source, Type}, [], RequiredMembers(e))
  {
    hide NameOf, Holding;
    root := Object([]);
    assert Holding(root, {}, [], []) by { NothingHeld(); }
    ghost var used: set<Reserved> := {};
    ghost var m: seq<Member> := [];
    root := SetText(root, SpecVersion, VERSION, used, m);
    used, m := used + {SpecVersion}, m + [Item(SpecVersion, Str(VERSION))];
    root := SetText(root, Id, e.id, used, m);
    used, m := used + {Id}, m + [Item(Id, Str(e.id))];
    root := SetText(root, Source, e.source, used, m);
    used, m := used + {Source}, m + [Item(Source, Str(e.source))];
    root := SetText(root, Type, e.kind, used, m);
    used, m := used + {Type}, m + [Item(Type, Str(e.kind))];
    assert used == {SpecVersion, Id, Source, Type};
    assert m == RequiredMembers(e);
  }

  /** `to_value_writing` up to the extensions. */
  method WriteContext(e: Event) returns (root: Json)
    requires RenderableOptions(e.rest)
    ensures Holding(root, CONTEXT, [], ContextMembers(e))
  {
    hide NameOf, Holding, Render, RequiredMembers, OptionalItem;
    root := WriteRequired(e);
    ghost var used: set<Reserved> := {SpecVersion, Id, Source, Type};
    ghost var m := RequiredMembers(e);
    root := SetOptional(root, DataContentType, e.rest.datacontenttype, used, m);
    used, m := used + {DataContentType}, m + OptionalItem(DataContentType, e.rest.datacontenttype);
    root := SetOptional(root, DataSchema, e.rest.dataschema, used, m);
    used, m := used + {DataSchema}, m + OptionalItem(DataSchema, e.rest.dataschema);
    root := SetOptional(root, Subject, e.rest.subject, used, m);
    used, m := used + {Subject}, m + OptionalItem(Subject, e.rest.subject);
    root := SetOptional(root, Attributes.Time, TimeText(e.rest), used, m);
    used, m := used + {Attributes.Time}, m + OptionalItem(Attributes.Time, TimeText(e.rest));
    assert used == CONTEXT;
  }

  lemma NothingHeld()
    ensures Holding(Object([]), {}, [], [])
  {
  }

  /** `to_value_writing`'s loop over the extensions, in the order of their names. */
  method WriteExtensions(before: Json, extensions: map<bytes, AttributeValue>, ghost members: seq<Member>)
    returns (root: Json)
    requires forall k :: k in extensions ==> MakeExtensionName(k).Ok? && Renderable(extensions[k])
    requires Holding(before, CONTEXT, [], members)
    ensures Holding(root, CONTEXT, Order.Sorted(extensions.Keys),
                    members + ExtensionMembers(Order.Sorted(extensions.Keys), extensions))
  {
    hide ReservedAs, Holding, EncodeAttribute, ValidName, Renderable, ExtensionMembers, Order.Sorted, Order.LessEq, SetMember;
    root := before;
    var names := Order.Sorted(extensions.Keys);
    Order.SortedAscends(extensions.Keys);
    ghost var m := members;
    assert m + ExtensionMembers(names[..0], extensions) == m by { NoExtensions(extensions); }
    for i := 0 to |names|
      invariant m == members + ExtensionMembers(names[..i], extensions)
      invariant Holding(root, CONTEXT, names[..i], m)
    {
      var name := names[i];
      assert name in names && name !in names[..i];
      SetExtension(root, CONTEXT, names[..i], m, name, EncodeAttribute(extensions[name]));
      HoldingIs(root, CONTEXT, names[..i], m);
      root := Set(root, name, EncodeAttribute(extensions[name]));
      m := m + [Member(name, EncodeAttribute(extensions[name]))];
      assert names[..i + 1] == names[..i] + [name];
      ExtensionsAppend(names[..i], name, extensions);
    }
    assert names[..|names|] == names;
  }

  /** `encode_data`. */
  method WriteData(before: Json, data: Payload, codec: Codec, ghost names: seq<bytes>, ghost members: seq<Member>)
    returns (r: Result<Json>)
    requires Holding(before, CONTEXT, names, members)
    requires forall name :: name in names ==> ReservedAs(name).None?
    ensures r.Ok? <==> DataMember(data, codec).Ok?
    ensures r.Err? ==> r.error == DataMember(data, codec).error
    ensures r.Ok? ==> r.value == Object(members + DataMember(data, codec).value)
  {
    hide ReservedAs, Holding, NameOf;
    HoldingIs(before, CONTEXT, names, members);
    match data
    case NoData =>
      assert members + [] == members;
      r := Ok(before);
    case BinaryData(octets) =>
      DataSet(before, names, members, DataBase64, Str(Base64.Encode(octets)));
      r := Ok(Set(before, NameOf(DataBase64), Str(Base64.Encode(octets))));
    case TextData(text) =>
      DataSet(before, names, members, Data, Str(text));
      r := Ok(Set(before, NameOf(Data), Str(text)));
    case JsonDocument(document) =>
      DataSet(before, names, members, Data, document);
      r := Ok(Set(before, NameOf(Data), document));
    case JsonText(raw) =>
      var parsed := codec.parse(raw);
      if parsed.Err? {
        return Err(ParseError);
      }
      DataSet(before, names, members, Data, parsed.value);
      r := Ok(Set(before, NameOf(Data), parsed.value));
  }

  lemma DataSet(root: Json, names: seq<bytes>, members: seq<Member>, r: Reserved, item: Json)
    requires Holding(root, CONTEXT, names, members) && r !in CONTEXT
    requires forall name :: name in names ==> ReservedAs(name).None?
    ensures root.Object? && Set(root, NameOf(r), item) == Object(members + [Item(r, item)])
  {
    hide Holding, ReservedAs, NameOf;
    HoldingIs(root, CONTEXT, names, members);
    SetReserved(root, CONTEXT, names, members, r, item);
    HoldingIs(Set(root, NameOf(r), item), CONTEXT + {r}, names, members + [Item(r, item)]);
  }

  /** `to_value`: sets each member in turn; no name is set twice. */
  method WriteEvent(e: Event, codec: Codec) returns (r: Result<Json>)
    requires ValidEvent(e) && RenderableOptions(e.rest)
    ensures r == ToValue(e, codec)
  {
    hide ReservedAs, Holding, ContextMembers, ExtensionMembers, ValidName, DataMember, Renderable;
    var root := WriteContext(e);
    var names := Order.Sorted(e.rest.extensions.Keys);
    Order.SortedAscends(e.rest.extensions.Keys);
    root := WriteExtensions(root, e.rest.extensions, ContextMembers(e));
    r := WriteData(root, e.rest.data, codec, names, ContextMembers(e) + ExtensionMembers(names, e.rest.extensions));
  }

  lemma NoExtensions(extensions: map<bytes, AttributeValue>)
    ensures ExtensionMembers([], extensions) == []
  {
  }

  lemma HoldingIs(root: Json, used: set<Reserved>, names: seq<bytes>, members: seq<Member>)
    requires Holding(root, used, names, members)
    ensures root == Object(members)
  {
  }

  lemma {:induction false} ExtensionsAppend(names: seq<bytes>, name: bytes, extensions: map<bytes, AttributeValue>)
    requires (forall k :: k in names ==> k in extensions && Renderable(extensions[k])) && name in extensions && Renderable(extensions[name])
    ensures ExtensionMembers(names + [name], extensions)
            == ExtensionMembers(names, extensions) + [Member(name, EncodeAttribute(extensions[name]))]
    decreases |names|
  {
    hide EncodeAttribute, Renderable;
    if names != [] {
      ExtensionsAppend(names[1..], name, extensions);
      assert (names + [name])[1..] == names[1..] + [name];
    }
  }
}
