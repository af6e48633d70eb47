/** Which documents are events, told from their members by name, and which error any other one gives
    (include/cloudevents/format/json_format.hpp). */
module JsonReads {
  import opened Wrappers
  import opened JsonDom
  import opened Attributes
  import opened JsonFormat
  import opened JsonLaws
  import opened TextChecks
  import Base64
  import Timestamp

  /** The first member of a reserved name. */
  function Called(document: Json, r: Reserved): Option<Json> {
    Find(document, NameOf(r))
  }

  // Why a member is refused, if it is

  /** A member that is missing or null counts as not given where it is optional. */
  predicate Given(member: Option<Json>) {
    member.Some? && member.value != Null
  }

  ghost function RequiredReason(member: Option<Json>): Option<Errc> {
    if member.None? then Some(MissingRequiredAttribute)
    else if !member.value.Str? then Some(InvalidAttributeValue)
    else TextReason(member.value.text, MissingRequiredAttribute)
  }

  function VersionReason(member: Option<Json>): Option<Errc> {
    if member.None? then Some(MissingRequiredAttribute)
    else if !member.value.Str? then Some(InvalidAttributeValue)
    else VersionTextReason(member.value.text)
  }

  ghost function OptionalReason(member: Option<Json>): Option<Errc> {
    if !Given(member) then None
    else if !member.value.Str? then Some(InvalidAttributeValue)
    else TextReason(member.value.text, InvalidAttributeValue)
  }

  ghost function MediaTypeReason(member: Option<Json>): Option<Errc> {
    if !Given(member) then None
    else if !member.value.Str? then Some(InvalidAttributeValue)
    else MediaTextReason(member.value.text)
  }

  function TimeReason(member: Option<Json>): Option<Errc> {
    if !Given(member) then None
    else if !member.value.Str? then Some(InvalidAttributeValue)
    else
      match Timestamp.Parse(member.value.text)
      case Err(e) => Some(e)
      case Ok(_) => None
  }

  function DataReason(data: Option<Json>, base64: Option<Json>): Option<Errc> {
    if data.Some? && base64.Some? then Some(DataConflict)
    else if base64.None? then None
    else if !base64.value.Str? then Some(InvalidAttributeValue)
    else if Base64.Decode(base64.value.text).Err? then Some(InvalidBase64)
    else None
  }

  /** None of the reserved names. */
  predicate IsExtensionName(name: bytes) {
    forall r: Reserved :: name != NameOf(r)
  }

  function MemberReason(m: Member): Option<Errc> {
    if !IsExtensionName(m.key) || m.item == Null then None
    else if NameReason(m.key).Some? then NameReason(m.key)
    else
      match m.item
      case Boolean(_) => None
      case Str(_) => None
      case Number(i) => if -2_147_483_648 <= i <= 2_147_483_647 then None else Some(OutOfRange)
      case _ => Some(TypeMismatch)
  }

  /** The first reason there is. */
  function FirstOf(reasons: seq<Option<Errc>>): Option<Errc> {
    if reasons == [] then None else if reasons[0].Some? then reasons[0] else FirstOf(reasons[1..])
  }

  function ExtensionReason(members: seq<Member>): Option<Errc> {
    FirstOf(seq(|members|, i requires 0 <= i < |members| => MemberReason(members[i])))
  }

  /** All that is checked, in the order in which it is. */
  ghost function Reasons(document: Json): seq<Option<Errc>>
    requires document.Object?
  {
    [VersionReason(Called(document, SpecVersion)),
     RequiredReason(Called(document, Id)), RequiredReason(Called(document, Source)), RequiredReason(Called(document, Type)),
     MediaTypeReason(Called(document, DataContentType)), OptionalReason(Called(document, DataSchema)),
     OptionalReason(Called(document, Subject)), TimeReason(Called(document, Attributes.Time)),
     DataReason(Called(document, Data), Called(document, DataBase64)),
     ExtensionReason(document.members)]
  }

  // The checks are the reader's

  function SlotOf(found: Found, r: Reserved): Option<Json> {
    if r in found.slots then Some(found.slots[r]) else None
  }

  lemma ExtensionNameIs(name: bytes)
    ensures IsExtensionName(name) <==> ReservedAs(name).None?
  {
    hide NameOf;
    NameOfReserved(name);
    forall r: Reserved {
      ReservedAsName(r);
    }
  }

  lemma RequiredFor(found: Found, r: Reserved)
    ensures var reason, stored := RequiredReason(SlotOf(found, r)), StoreRequired(found, r);
            (reason.None? <==> stored.Ok?) && (stored.Err? ==> reason == Some(stored.error))
  {
    hide MakeRequired, TextReason;
    if SlotOf(found, r).Some? && found.slots[r].Str? {
      ChecksExactly(found.slots[r].text);
    }
  }

  lemma VersionFor(found: Found)
    ensures var reason, text := VersionReason(SlotOf(found, SpecVersion)), RequiredText(found, SpecVersion);
            && (reason.None? <==> text.Ok? && MakeVersion(text.value).Ok?)
            && (text.Err? ==> reason == Some(text.error))
            && (text.Ok? && MakeVersion(text.value).Err? ==> reason == Some(MakeVersion(text.value).error))
  {
    hide MakeVersion, VersionTextReason;
    if SlotOf(found, SpecVersion).Some? && found.slots[SpecVersion].Str? {
      ChecksExactly(found.slots[SpecVersion].text);
    }
  }

  lemma OptionalFor(found: Found, r: Reserved)
    ensures var reason, stored := OptionalReason(SlotOf(found, r)), StoreOptional(found, r, MakeOptional);
            (reason.None? <==> stored.Ok?) && (stored.Err? ==> reason == Some(stored.error))
    ensures var reason, stored := MediaTypeReason(SlotOf(found, r)), StoreOptional(found, r, MakeContentType);
            (reason.None? <==> stored.Ok?) && (stored.Err? ==> reason == Some(stored.error))
  {
    hide MakeOptional, MakeContentType, TextReason, MediaTextReason;
    if Given(SlotOf(found, r)) && found.slots[r].Str? {
      ChecksExactly(found.slots[r].text);
    }
  }

  lemma TimeFor(found: Found)
    ensures var reason, stored := TimeReason(SlotOf(found, Attributes.Time)), StoreTime(found);
            (reason.None? <==> stored.Ok?) && (stored.Err? ==> reason == Some(stored.error))
  {
    hide Timestamp.Parse;
  }

  lemma DataFor(found: Found, datacontenttype: Option<bytes>)
    ensures var reason, data := DataReason(SlotOf(found, Data), SlotOf(found, DataBase64)), DecodeData(found, datacontenttype);
            (reason.None? <==> data.Ok?) && (data.Err? ==> reason == Some(data.error))
  {
    hide IsJsonContentType, Base64.Stripped, Base64.InAlphabet, Base64.TrailingClear, Base64.Values, Base64.Octets;
  }

  lemma {:induction false} ExtensionsFor(found: Found, members: seq<Member>)
    requires found.failure.None?
    ensures ReadMembers(found, members).failure == ExtensionReason(members)
    decreases |members|
  {
    hide ReservedAs, IsExtensionName, MakeExtensionName, NameReason;
    var reasons := seq(|members|, i requires 0 <= i < |members| => MemberReason(members[i]));
    if members != [] {
      var next := ReadMember(found, members[0]);
      ExtensionNameIs(members[0].key);
      NamesExactly(members[0].key);
      assert reasons[1..] == seq(|members[1..]|, i requires 0 <= i < |members[1..]| => MemberReason(members[1..][i]));
      if next.failure.None? {
        ExtensionsFor(next, members[1..]);
      } else {
        FailureIsKept(next, members[1..]);
      }
    }
  }

  lemma {:induction false} FailureIsKept(found: Found, members: seq<Member>)
    requires found.failure.Some?
    ensures ReadMembers(found, members).failure == found.failure
    decreases |members|
  {
    hide ReservedAs, ReadExtension;
    if members != [] {
      FailureIsKept(ReadMember(found, members[0]), members[1..]);
    }
  }

  lemma SlotIsCalled(document: Json, r: Reserved)
    requires document.Object?
    ensures SlotOf(ReadMembers(NOTHING_FOUND, document.members), r) == Called(document, r)
  {
    hide NameOf, Find, ReadMembers;
    FirstMemberIsRead(document, r);
  }

  /** The reasons, one found after the other. */
  ghost function FoundReason(found: Found, extension: Option<Errc>): Option<Errc> {
    var version, id, source, kind := VersionReason(SlotOf(found, SpecVersion)), RequiredReason(SlotOf(found, Id)),
                                     RequiredReason(SlotOf(found, Source)), RequiredReason(SlotOf(found, Type));
    var mediaType, schema, subject := MediaTypeReason(SlotOf(found, DataContentType)), OptionalReason(SlotOf(found, DataSchema)),
                                      OptionalReason(SlotOf(found, Subject));
    var time, data := TimeReason(SlotOf(found, Attributes.Time)), DataReason(SlotOf(found, Data), SlotOf(found, DataBase64));
    if version.Some? then version
    else if id.Some? then id
    else if source.Some? then source
    else if kind.Some? then kind
    else if mediaType.Some? then mediaType
    else if schema.Some? then schema
    else if subject.Some? then subject
    else if time.Some? then time
    else if data.Some? then data
    else extension
  }

  lemma BuiltFor(found: Found)
    ensures var reason := FoundReason(found, found.failure);
            (reason.None? <==> BuildFound(found).Ok?) && (BuildFound(found).Err? ==> reason == Some(BuildFound(found).error))
  {
    hide SlotOf, VersionReason, RequiredReason, MediaTypeReason, OptionalReason, TimeReason, DataReason, RequiredText, MakeVersion,
      StoreRequired, StoreOptional, StoreTime, DecodeData, MakeContentType, MakeOptional;
    VersionFor(found);
    RequiredFor(found, Id);
    RequiredFor(found, Source);
    RequiredFor(found, Type);
    OptionalFor(found, DataContentType);
    OptionalFor(found, DataSchema);
    OptionalFor(found, Subject);
    TimeFor(found);
    var context := ReadContext(found);
    if context.Ok? {
      DataFor(found, context.value.rest.datacontenttype);
    }
  }

  lemma ReasonsInOrder(rest: seq<Option<Errc>>)
    requires |rest| == 10
    ensures FirstOf(rest)
            == if rest[0].Some? then rest[0] else if rest[1].Some? then rest[1] else if rest[2].Some? then rest[2]
               else if rest[3].Some? then rest[3] else if rest[4].Some? then rest[4] else if rest[5].Some? then rest[5]
               else if rest[6].Some? then rest[6] else if rest[7].Some? then rest[7] else if rest[8].Some? then rest[8] else rest[9]
  {
    hide FirstOf;
    FirstFrom(rest, 0);
    FirstFrom(rest, 1);
    FirstFrom(rest, 2);
    FirstFrom(rest, 3);
    FirstFrom(rest, 4);
    FirstFrom(rest, 5);
    FirstFrom(rest, 6);
    FirstFrom(rest, 7);
    FirstFrom(rest, 8);
    LastReason(rest[9]);
    assert rest[9..] == [rest[9]] && rest[0..] == rest;
  }

  lemma FirstFrom(reasons: seq<Option<Errc>>, i: nat)
    requires i < |reasons|
    ensures FirstOf(reasons[i..]) == if reasons[i].Some? then reasons[i] else FirstOf(reasons[i + 1..])
  {
    assert reasons[i..][1..] == reasons[i + 1..];
  }

  lemma LastReason(j: Option<Errc>)
    ensures FirstOf([j]) == j
  {
    assert [j][1..] == [];
  }

  /** The reader, told without it: an object is an event exactly when there is no reason against it, and
      otherwise the first reason is the error. */
  lemma AcceptedExactly(document: Json)
    ensures !document.Object? ==> FromValue(document) == Err(ParseError)
    ensures document.Object? ==>
              var reason := FirstOf(Reasons(document));
              (FromValue(document).Ok? <==> reason.None?) && (reason.Some? ==> FromValue(document) == Err(reason.value))
  {
    hide BuildFound, ReadMembers, VersionReason, RequiredReason, MediaTypeReason, OptionalReason, TimeReason, DataReason,
      ExtensionReason, SlotOf, Called, FirstOf;
    if document.Object? {
      var found := ReadMembers(NOTHING_FOUND, document.members);
      forall r: Reserved {
        SlotIsCalled(document, r);
      }
      ExtensionsFor(NOTHING_FOUND, document.members);
      BuiltFor(found);
      var s := Reasons(document);
      ReasonsInOrder(s);
    }
  }

  // What an accepted document says

  /** A text that is given is the attribute; one that is not leaves it unset. */
  predicate Says(member: Option<Json>, text: Option<bytes>) {
    if Given(member) then text.Some? && member == Some(Str(text.value)) else text.None?
  }

  /** The attributes of an event read from a document, by the names of its members. */
  lemma ReadByName(document: Json)
    requires FromValue(document).Ok?
    ensures var e := FromValue(document).value;
            && Called(document, Id) == Some(Str(e.id)) && Called(document, Source) == Some(Str(e.source))
            && Called(document, Type) == Some(Str(e.kind))
            && Says(Called(document, DataContentType), e.rest.datacontenttype)
            && Says(Called(document, DataSchema), e.rest.dataschema) && Says(Called(document, Subject), e.rest.subject)
            && StandsForTime(Called(document, Attributes.Time), e.rest.time)
  {
    hide FromValue, NameOf, Find, StandsForTime, VERSION;
    ReadIsFound(document);
  }

  /** Its extensions: each other name that has a member which is not null, with the value of the last such
      member. */
  lemma ExtensionsByName(document: Json, name: bytes)
    requires document.Object? && FromValue(document).Ok? && IsExtensionName(name)
    ensures var extensions := FromValue(document).value.rest.extensions;
            && (name in extensions <==> exists i: nat :: LastOf(document.members, name, i))
            && forall i: nat :: LastOf(document.members, name, i)
                 ==> i < |document.members| && name in extensions && IsTheValue(extensions[name], document.members[i].item)
  {
    hide FromValue, IsExtensionName, LastOf, ReservedAs;
    ExtensionNameIs(name);
    ExtensionsAreMembers(document, name);
    ReadIsValid(document);
    forall i: nat | LastOf(document.members, name, i)
      ensures i < |document.members| && name in FromValue(document).value.rest.extensions
      ensures IsTheValue(FromValue(document).value.rest.extensions[name], document.members[i].item)
    {
      LastIsMember(document.members, name, i);
      MemberOf(FromValue(document).value.rest.extensions[name], document.members[i].item);
    }
  }

  lemma LastIsMember(members: seq<Member>, name: bytes, i: nat)
    requires LastOf(members, name, i)
    ensures i < |members|
  {
  }

  /** The value is the one the JSON says, with its type. */
  predicate IsTheValue(v: AttributeValue, item: Json) {
    match item
    case Boolean(b) => v == Bool(b)
    case Number(n) => v.Integer? && v.i == n
    case Str(text) => v == Text(text)
    case _ => false
  }

  lemma MemberOf(v: AttributeValue, item: Json)
    requires PlainValue(v) && Renderable(v) && EncodeAttribute(v) == item
    ensures IsTheValue(v, item)
  {
  }

  // A null optional member

  predicate IsOptional(r: Reserved) {
    r in {DataContentType, DataSchema, Subject, Attributes.Time}
  }

  function WithNull(found: Found, r: Reserved): Found {
    found.(slots := found.slots[r := Null])
  }

  lemma {:induction false} NullCommutes(found: Found, r: Reserved, members: seq<Member>)
    requires r !in found.slots && forall i :: 0 <= i < |members| ==> members[i].key != NameOf(r)
    ensures ReadMembers(WithNull(found, r), members) == WithNull(ReadMembers(found, members), r)
    ensures r !in ReadMembers(found, members).slots
    decreases |members|
  {
    hide NameOf, ReservedAs, ReadExtension;
    if members != [] {
      NameOfReserved(members[0].key);
      var next := ReadMember(found, members[0]);
      assert ReadMember(WithNull(found, r), members[0]) == WithNull(next, r) by {
        var claimed := ReservedAs(members[0].key);
        if claimed.Some? && claimed.value !in found.slots {
          assert found.slots[r := Null][claimed.value := members[0].item] == found.slots[claimed.value := members[0].item][r := Null];
        }
      }
      NullCommutes(next, r, members[1..]);
    }
  }

  lemma NullTexts(found: Found, r: Reserved, q: Reserved)
    requires IsOptional(r) && r !in found.slots
    ensures OptionalText(WithNull(found, r), q) == OptionalText(found, q)
    ensures !IsOptional(q) ==> RequiredText(WithNull(found, r), q) == RequiredText(found, q)
  {
  }

  lemma NullData(found: Found, r: Reserved, datacontenttype: Option<bytes>)
    requires IsOptional(r) && r !in found.slots
    ensures DecodeData(WithNull(found, r), datacontenttype) == DecodeData(found, datacontenttype)
  {
    hide DeclaredNonJson, Base64.Decode;
  }

  lemma NullIsUnset(found: Found, r: Reserved)
    requires IsOptional(r) && r !in found.slots
    ensures BuildFound(WithNull(found, r)) == BuildFound(found)
  {
    hide RequiredText, OptionalText, DecodeData, MakeContentType, MakeOptional, MakeRequired, MakeVersion, Timestamp.Parse;
    forall q: Reserved {
      NullTexts(found, r, q);
    }
    forall datacontenttype: Option<bytes> {
      NullData(found, r, datacontenttype);
    }
  }

  /** An optional attribute that is null is as good as absent, wherever the member stands. */
  lemma NullOptionalIsAbsent(before: seq<Member>, r: Reserved, after: seq<Member>)
    requires IsOptional(r) && forall i :: 0 <= i < |before + after| ==> (before + after)[i].key != NameOf(r)
    ensures FromValue(Object(before + [Member(NameOf(r), Null)] + after)) == FromValue(Object(before + after))
  {
    hide BuildFound, ReadMembers, NameOf, IsOptional;
    forall i | 0 <= i < |before|
      ensures before[i].key != NameOf(r)
    {
      assert (before + after)[i] == before[i];
    }
    forall i | 0 <= i < |after|
      ensures after[i].key != NameOf(r)
    {
      assert (before + after)[|before| + i] == after[i];
    }
    NothingIsClaimed(r);
    NullCommutes(NOTHING_FOUND, r, before);
    var found := ReadMembers(NOTHING_FOUND, before);
    NullCommutes(found, r, after);
    ReadSplit(NOTHING_FOUND, before + [Member(NameOf(r), Null)], after);
    ReadSplit(NOTHING_FOUND, before, [Member(NameOf(r), Null)]);
    ReadSplit(NOTHING_FOUND, before, after);
    ReadItem(found, r, Null);
    NullIsUnset(ReadMembers(found, after), r);
  }

  lemma NothingIsClaimed(r: Reserved)
    ensures r !in NOTHING_FOUND.slots
  {
  }
}
