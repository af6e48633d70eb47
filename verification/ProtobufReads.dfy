/** What any octets decode to, told from the fields on the wire, whoever wrote them
    (include/cloudevents/format/protobuf_format.hpp). */
module ProtobufReads {
  import opened Wrappers
  import opened Wire
  import opened Attributes
  import opened ProtobufDecode
  import opened ProtobufRoundTrip
  import opened TextChecks
  import Order
  import ProtobufLaws
  import Timestamp
  import Utf8
  import WireReads

  // Fields by number

  predicate Holds(f: Field, number: nat) {
    f.LengthField? && f.number == number
  }

  /** The body of the last length-delimited field of the number. */
  function LastBody(fields: seq<Field>, number: nat): Option<bytes> {
    if fields == [] then None
    else
      var last := fields[|fields| - 1];
      if Holds(last, number) then Some(last.body) else LastBody(fields[..|fields| - 1], number)
  }

  /** The last varint field of the number. */
  function LastVarint(fields: seq<Field>, number: nat): Option<uint64> {
    if fields == [] then None
    else
      var last := fields[|fields| - 1];
      if last.VarintField? && last.number == number then Some(last.value) else LastVarint(fields[..|fields| - 1], number)
  }

  function OrEmpty(body: Option<bytes>): bytes {
    if body.Some? then body.value else []
  }

  function OrZero(v: Option<uint64>): int {
    if v.Some? then Signed(v.value) else 0
  }

  // What a walk does, when each field is accepted or refused by itself

  ghost predicate FirstRefused(fields: seq<Field>, refuse: Field -> Option<Errc>, i: nat, e: Errc) {
    i < |fields| && refuse(fields[i]) == Some(e) && forall j :: 0 <= j < i ==> refuse(fields[j]).None?
  }

  ghost predicate NoneRefused(fields: seq<Field>, refuse: Field -> Option<Errc>) {
    forall i :: 0 <= i < |fields| ==> refuse(fields[i]).None?
  }

  /** The error of a message: of the first field refused, or of octets that are no field behind fields that
      are all accepted. */
  ghost predicate RefusedWith(body: bytes, refuse: Field -> Option<Errc>, e: Errc) {
    var fields := FieldsOf(body);
    if NoneRefused(fields.read, refuse) then !fields.complete && e == ParseError
    else exists i: nat :: FirstRefused(fields.read, refuse, i, e)
  }

  lemma {:induction false} VisitsLast<S>(visit: (S, Field) -> Result<S>, start: S, fields: seq<Field>)
    requires fields != []
    ensures var most := Visits(visit, start, fields[..|fields| - 1]);
            Visits(visit, start, fields) == if most.Err? then most else visit(most.value, fields[|fields| - 1])
    decreases |fields|
  {
    if |fields| == 1 {
      assert fields[1..] == [];
    } else if visit(start, fields[0]).Ok? {
      VisitsLast(visit, visit(start, fields[0]).value, fields[1..]);
      assert fields[1..][..|fields[1..]| - 1] == fields[..|fields| - 1][1..];
    }
  }

  lemma {:induction false} VisitsRefuse<S(!new)>(visit: (S, Field) -> Result<S>, refuse: Field -> Option<Errc>, start: S, fields: seq<Field>)
    requires forall s, f :: if visit(s, f).Err? then refuse(f) == Some(visit(s, f).error) else refuse(f).None?
    ensures Visits(visit, start, fields).Ok? <==> NoneRefused(fields, refuse)
    ensures Visits(visit, start, fields).Err? ==> exists i: nat :: FirstRefused(fields, refuse, i, Visits(visit, start, fields).error)
    decreases |fields|
  {
    if fields != [] {
      var r := Visits(visit, start, fields);
      if visit(start, fields[0]).Err? {
        assert FirstRefused(fields, refuse, 0, visit(start, fields[0]).error);
      } else {
        VisitsRefuse(visit, refuse, visit(start, fields[0]).value, fields[1..]);
        assert forall i :: 0 < i < |fields| ==> fields[i] == fields[1..][i - 1];
        if r.Err? {
          var i: nat :| FirstRefused(fields[1..], refuse, i, r.error);
          assert FirstRefused(fields, refuse, i + 1, r.error);
        }
      }
    }
  }

  lemma WalkRefuses<S(!new)>(visit: (S, Field) -> Result<S>, refuse: Field -> Option<Errc>, start: S, body: bytes)
    requires forall s, f :: if visit(s, f).Err? then refuse(f) == Some(visit(s, f).error) else refuse(f).None?
    ensures Walk(visit, start, body).Ok? <==> NoneRefused(FieldsOf(body).read, refuse) && FieldsOf(body).complete
    ensures Walk(visit, start, body).Err? ==> RefusedWith(body, refuse, Walk(visit, start, body).error)
    ensures Walk(visit, start, body).Ok? ==> Visits(visit, start, FieldsOf(body).read) == Walk(visit, start, body)
  {
    hide FieldsOf, Visits, NoneRefused, FirstRefused;
    VisitsRefuse(visit, refuse, start, FieldsOf(body).read);
  }

  // Instants

  lemma {:induction false} TimestampFields(fields: seq<Field>)
    ensures Visits(VisitTimestamp, RawInstant(0, 0), fields)
            == Ok(RawInstant(OrZero(LastVarint(fields, 1)), OrZero(LastVarint(fields, 2))))
    decreases |fields|
  {
    hide Signed;
    if fields != [] {
      hide Visits;
      TimestampFields(fields[..|fields| - 1]);
      VisitsLast(VisitTimestamp, RawInstant(0, 0), fields);
    }
  }

  /** An instant is the last varint 1 and the last varint 2, zero where there is none, as seconds and
      nanoseconds; all other fields are passed over. */
  lemma TimestampExactly(body: bytes)
    ensures var fields := FieldsOf(body);
            ReadTimestamp(body)
            == if !fields.complete then Err(ParseError)
               else MakeInstant(OrZero(LastVarint(fields.read, 1)), OrZero(LastVarint(fields.read, 2)))
  {
    hide FieldsOf, Visits, MakeInstant;
    TimestampFields(FieldsOf(body).read);
  }

  /** Seconds and nanoseconds that are no instant, or none the clock can hold, are an invalid timestamp. */
  lemma InstantExactly(seconds: int, nanos: int)
    ensures var t := MakeInstant(seconds, nanos);
            if 0 <= nanos <= 999_999_999 && -9_223_372_035 <= seconds <= 9_223_372_035
            then t.Ok? && t.value.utc == seconds * 1_000_000_000 + nanos && t.value.offset == 0 && t.value.form.UtcDesignator?
                 && t.value.digits == if nanos == 0 then 0 else if nanos % 1_000_000 == 0 then 3 else if nanos % 1000 == 0 then 6 else 9
            else t == Err(InvalidTimestamp)
  {
  }

  // Values

  ghost function TextArm(text: bytes, v: AttributeValue): Result<Arm> {
    if Utf8.WellFormed(text) then Ok(Some(v)) else Err(InvalidUtf8)
  }

  /** The value that a field alone is, if it is one. */
  ghost function ArmOf(f: Field): Result<Arm> {
    match f
    case VarintField(number, v) =>
      if number == 1 then Ok(Some(Bool(v != 0)))
      else if number != 2 then Ok(None)
      else if -2_147_483_648 <= Signed(v) <= 2_147_483_647 then Ok(Some(Integer(Signed(v))))
      else Err(OutOfRange)
    case LengthField(number, body) =>
      if number == 3 then TextArm(body, Text(body))
      else if number == 4 then Ok(Some(Binary(body)))
      else if number == 5 then TextArm(body, Uri(body))
      else if number == 6 then TextArm(body, UriRef(body))
      else if number != 7 then Ok(None)
      else
        match ReadTimestamp(body)
        case Err(e) => Err(e)
        case Ok(t) => Ok(Some(Instant(t)))
  }

  ghost function ArmReason(f: Field): Option<Errc> {
    if ArmOf(f).Err? then Some(ArmOf(f).error) else None
  }

  /** The last field that is a value. */
  ghost function LastArm(fields: seq<Field>): Arm {
    if fields == [] then None
    else
      var last := ArmOf(fields[|fields| - 1]);
      if last.Ok? && last.value.Some? then last.value else LastArm(fields[..|fields| - 1])
  }

  lemma VisitsArm(value: Arm, f: Field)
    ensures VisitValue(value, f)
            == match ArmOf(f)
               case Err(e) => Err(e)
               case Ok(arm) => Ok(if arm.Some? then arm else value)
  {
    hide Signed, ReadTimestamp, Utf8.WellFormed;
  }

  lemma {:induction false} ArmFields(fields: seq<Field>)
    ensures Visits(VisitValue, None, fields).Ok? ==> Visits(VisitValue, None, fields) == Ok(LastArm(fields))
    decreases |fields|
  {
    hide VisitValue, ArmOf;
    if fields != [] {
      hide Visits;
      ArmFields(fields[..|fields| - 1]);
      VisitsLast(VisitValue, None, fields);
      var most := Visits(VisitValue, None, fields[..|fields| - 1]);
      if most.Ok? {
        VisitsArm(most.value, fields[|fields| - 1]);
      }
    }
  }

  ghost function ArmReasons(): Field -> Option<Errc> {
    f => ArmReason(f)
  }

  /** A value is the last of its fields that is one; a field that is one and is bad is refused even if
      another follows, and all others are passed over. */
  lemma ValueExactly(body: bytes)
    ensures var fields := FieldsOf(body);
            && (ReadValue(body).Ok? <==> NoneRefused(fields.read, ArmReasons()) && fields.complete)
            && (ReadValue(body).Ok? ==> ReadValue(body).value == LastArm(fields.read))
            && (ReadValue(body).Err? ==> RefusedWith(body, ArmReasons(), ReadValue(body).error))
  {
    hide FieldsOf, Visits, Walk, VisitValue, ArmOf, NoneRefused, RefusedWith, LastArm;
    forall value: Arm, f: Field
      ensures if VisitValue(value, f).Err? then ArmReasons()(f) == Some(VisitValue(value, f).error) else ArmReasons()(f).None?
    {
      VisitsArm(value, f);
    }
    WalkRefuses(VisitValue, ArmReasons(), None, body);
    ArmFields(FieldsOf(body).read);
  }

  // Entries of the attribute map

  ghost function EntryReason(f: Field): Option<Errc> {
    if Holds(f, 1) && !Utf8.WellFormed(f.body) then Some(InvalidUtf8)
    else if Holds(f, 2) && ReadValue(f.body).Err? then Some(ReadValue(f.body).error)
    else None
  }

  ghost function EntryReasons(): Field -> Option<Errc> {
    f => EntryReason(f)
  }

  /** The value of an entry is that of its last field 2, if it has one. */
  function EntryArm(fields: seq<Field>): Arm {
    var body := LastBody(fields, 2);
    if body.Some? && ReadValue(body.value).Ok? then ReadValue(body.value).value else None
  }

  function EntryOf(body: bytes): Result<Entry> {
    Walk(VisitEntry, Entry([], None), body)
  }

  lemma VisitsEntry(entry: Entry, f: Field)
    ensures VisitEntry(entry, f)
            == if EntryReason(f).Some? then Err(EntryReason(f).value)
               else if Holds(f, 1) then Ok(entry.(key := f.body))
               else if Holds(f, 2) then Ok(entry.(value := ReadValue(f.body).value))
               else Ok(entry)
  {
    hide ReadValue, Utf8.WellFormed;
  }

  lemma {:induction false} EntryFields(fields: seq<Field>)
    ensures Visits(VisitEntry, Entry([], None), fields).Ok?
            ==> Visits(VisitEntry, Entry([], None), fields) == Ok(Entry(OrEmpty(LastBody(fields, 1)), EntryArm(fields)))
    decreases |fields|
  {
    hide VisitEntry, ReadValue, Utf8.WellFormed;
    if fields != [] {
      hide Visits;
      EntryFields(fields[..|fields| - 1]);
      VisitsLast(VisitEntry, Entry([], None), fields);
      var most := Visits(VisitEntry, Entry([], None), fields[..|fields| - 1]);
      if most.Ok? {
        VisitsEntry(most.value, fields[|fields| - 1]);
      }
    }
  }

  /** An entry is the text of its last field 1, empty without one, and the value of its last field 2. */
  lemma EntryExactly(body: bytes)
    ensures var fields := FieldsOf(body);
            && (EntryOf(body).Ok? <==> NoneRefused(fields.read, EntryReasons()) && fields.complete)
            && (EntryOf(body).Ok? ==> EntryOf(body).value == Entry(OrEmpty(LastBody(fields.read, 1)), EntryArm(fields.read)))
            && (EntryOf(body).Err? ==> RefusedWith(body, EntryReasons(), EntryOf(body).error))
  {
    hide FieldsOf, Visits, Walk, VisitEntry, EntryReason, NoneRefused, RefusedWith, LastBody, EntryArm;
    forall entry: Entry, f: Field
      ensures if VisitEntry(entry, f).Err? then EntryReasons()(f) == Some(VisitEntry(entry, f).error) else EntryReasons()(f).None?
    {
      VisitsEntry(entry, f);
    }
    WalkRefuses(VisitEntry, EntryReasons(), Entry([], None), body);
    EntryFields(FieldsOf(body).read);
  }

  // Payloads sent as an Any

  ghost function AnyReason(f: Field): Option<Errc> {
    if Holds(f, 1) && !Utf8.WellFormed(f.body) then Some(InvalidUtf8) else None
  }

  ghost function AnyReasons(): Field -> Option<Errc> {
    f => AnyReason(f)
  }

  function AnyOf(body: bytes): Result<Any> {
    Walk(VisitAny, Any([], []), body)
  }

  lemma VisitsAny(any: Any, f: Field)
    ensures VisitAny(any, f)
            == if AnyReason(f).Some? then Err(AnyReason(f).value)
               else if Holds(f, 1) then Ok(any.(typeUrl := f.body))
               else if Holds(f, 2) then Ok(any.(value := f.body))
               else Ok(any)
  {
    hide Utf8.WellFormed;
  }

  lemma {:induction false} AnyFields(fields: seq<Field>)
    ensures Visits(VisitAny, Any([], []), fields).Ok?
            ==> Visits(VisitAny, Any([], []), fields) == Ok(Any(OrEmpty(LastBody(fields, 1)), OrEmpty(LastBody(fields, 2))))
    decreases |fields|
  {
    hide VisitAny, Utf8.WellFormed;
    if fields != [] {
      hide Visits;
      AnyFields(fields[..|fields| - 1]);
      VisitsLast(VisitAny, Any([], []), fields);
      var most := Visits(VisitAny, Any([], []), fields[..|fields| - 1]);
      if most.Ok? {
        VisitsAny(most.value, fields[|fields| - 1]);
      }
    }
  }

  /** An Any is its last type URL and its last value. */
  lemma AnyExactly(body: bytes)
    ensures var fields := FieldsOf(body);
            && (AnyOf(body).Ok? <==> NoneRefused(fields.read, AnyReasons()) && fields.complete)
            && (AnyOf(body).Ok? ==> AnyOf(body).value == Any(OrEmpty(LastBody(fields.read, 1)), OrEmpty(LastBody(fields.read, 2))))
            && (AnyOf(body).Err? ==> RefusedWith(body, AnyReasons(), AnyOf(body).error))
  {
    hide FieldsOf, Visits, Walk, VisitAny, AnyReason, NoneRefused, RefusedWith, LastBody;
    forall any: Any, f: Field
      ensures if VisitAny(any, f).Err? then AnyReasons()(f) == Some(VisitAny(any, f).error) else AnyReasons()(f).None?
    {
      VisitsAny(any, f);
    }
    WalkRefuses(VisitAny, AnyReasons(), Any([], []), body);
    AnyFields(FieldsOf(body).read);
  }

  // Events

  function CountOf(fields: seq<Field>, number: nat): nat {
    if fields == [] then 0
    else CountOf(fields[..|fields| - 1], number) + if Holds(fields[|fields| - 1], number) then 1 else 0
  }

  ghost function AnyFieldReason(body: bytes): Option<Errc> {
    if AnyOf(body).Err? then Some(AnyOf(body).error)
    else if !ValidUriReference(AnyOf(body).value.typeUrl) then Some(ParseError)
    else None
  }

  /** Why a field of an event is refused, behind the fields before it. */
  ghost function EventReason(before: seq<Field>, f: Field, limit: nat): Option<Errc> {
    if Holds(f, 1) || Holds(f, 2) || Holds(f, 3) || Holds(f, 4) || Holds(f, 7) then
      if Utf8.WellFormed(f.body) then None else Some(InvalidUtf8)
    else if Holds(f, 5) then
      if CountOf(before, 5) >= limit then Some(OutOfRange)
      else if EntryOf(f.body).Err? then Some(EntryOf(f.body).error)
      else None
    else if Holds(f, 8) then AnyFieldReason(f.body)
    else None
  }

  ghost predicate EventRefused(fields: seq<Field>, limit: nat, i: nat, e: Errc) {
    && i < |fields| && EventReason(fields[..i], fields[i], limit) == Some(e)
    && forall j :: 0 <= j < i ==> EventReason(fields[..j], fields[j], limit).None?
  }

  ghost predicate EventAccepted(fields: seq<Field>, limit: nat) {
    forall j :: 0 <= j < |fields| ==> EventReason(fields[..j], fields[j], limit).None?
  }

  function KeyOf(body: bytes): bytes {
    if EntryOf(body).Ok? then EntryOf(body).value.key else []
  }

  function ArmIn(body: bytes): Arm {
    if EntryOf(body).Ok? then EntryOf(body).value.value else None
  }

  /** The names of the entries. */
  function KeysIn(fields: seq<Field>): set<bytes> {
    set i | 0 <= i < |fields| && Holds(fields[i], 5) :: KeyOf(fields[i].body)
  }

  /** The value of the last entry of the name. */
  function LastFor(fields: seq<Field>, key: bytes): Arm {
    if fields == [] then None
    else
      var last := fields[|fields| - 1];
      if Holds(last, 5) && KeyOf(last.body) == key then ArmIn(last.body) else LastFor(fields[..|fields| - 1], key)
  }

  function EntriesIn(fields: seq<Field>): ArmMap {
    map k | k in KeysIn(fields) :: LastFor(fields, k)
  }

  /** The last of the fields 6 to 8. */
  function LastData(fields: seq<Field>): Option<Field> {
    if fields == [] then None
    else
      var last := fields[|fields| - 1];
      if Holds(last, 6) || Holds(last, 7) || Holds(last, 8) then Some(last) else LastData(fields[..|fields| - 1])
  }

  /** The event so far, with the data of a field. */
  function WithData(raw: Raw, data: Option<Field>): Raw {
    if data.None? || !data.value.LengthField? then raw
    else if data.value.number == 6 then raw.(dataKind := BinaryField, data := data.value.body, typeUrl := [])
    else if data.value.number == 7 then raw.(dataKind := TextField, data := data.value.body, typeUrl := [])
    else
      var any := AnyOf(data.value.body);
      if any.Ok? then raw.(dataKind := ProtoField, data := any.value.value, typeUrl := any.value.typeUrl) else raw
  }

  /** What accepted fields say: of each of 1 to 4 the last body, the last entry of each name, and the last
      data. */
  function Told(fields: seq<Field>): Raw {
    WithData(
      EMPTY_RAW.(id := OrEmpty(LastBody(fields, 1)), source := OrEmpty(LastBody(fields, 2)),
                 version := OrEmpty(LastBody(fields, 3)), kind := OrEmpty(LastBody(fields, 4)),
                 attributes := EntriesIn(fields), entries := CountOf(fields, 5)),
      LastData(fields))
  }

  /** What an accepted field changes. */
  function AfterField(into: Raw, f: Field): Raw {
    if Holds(f, 1) then into.(id := f.body)
    else if Holds(f, 2) then into.(source := f.body)
    else if Holds(f, 3) then into.(version := f.body)
    else if Holds(f, 4) then into.(kind := f.body)
    else if Holds(f, 5) then into.(attributes := into.attributes[KeyOf(f.body) := ArmIn(f.body)], entries := into.entries + 1)
    else if Holds(f, 6) || Holds(f, 7) || Holds(f, 8) then WithData(into, Some(f))
    else into
  }

  lemma StoredExactly(options: DecodeOptions, into: Raw, before: seq<Field>, f: Field)
    requires into.entries == CountOf(before, 5)
    ensures StoreField(options, into, f)
            == if EventReason(before, f, options.maxAttributeCount).Some?
               then Err(EventReason(before, f, options.maxAttributeCount).value)
               else Ok(AfterField(into, f))
  {
    hide Walk, Utf8.WellFormed, ValidUriReference, CountOf;
  }

  lemma EntriesAfter(fields: seq<Field>, f: Field)
    ensures EntriesIn(fields + [f])
            == if Holds(f, 5) then EntriesIn(fields)[KeyOf(f.body) := ArmIn(f.body)] else EntriesIn(fields)
  {
    hide KeyOf, ArmIn;
    var all := fields + [f];
    assert all[..|all| - 1] == fields;
    KeysAfter(fields, f);
    forall k | k in KeysIn(all)
      ensures LastFor(all, k) == if Holds(f, 5) && KeyOf(f.body) == k then ArmIn(f.body) else LastFor(fields, k)
    {
    }
  }

  lemma KeysAfter(fields: seq<Field>, f: Field)
    ensures KeysIn(fields + [f]) == KeysIn(fields) + if Holds(f, 5) then {KeyOf(f.body)} else {}
  {
    hide KeyOf;
    var all := fields + [f];
    assert forall i :: 0 <= i < |fields| ==> all[i] == fields[i];
    assert all[|fields|] == f;
    forall k
      ensures k in KeysIn(all) <==> k in KeysIn(fields) || (Holds(f, 5) && k == KeyOf(f.body))
    {
      if k in KeysIn(fields) {
        var i :| 0 <= i < |fields| && Holds(fields[i], 5) && KeyOf(fields[i].body) == k;
        assert all[i] == fields[i];
      }
    }
  }

  lemma ToldAfter(fields: seq<Field>, f: Field)
    requires Holds(f, 8) ==> AnyOf(f.body).Ok?
    ensures Told(fields + [f]) == AfterField(Told(fields), f)
    ensures CountOf(fields + [f], 5) == Told(fields + [f]).entries
  {
    hide KeyOf, ArmIn, AnyOf, EntriesIn;
    var all := fields + [f];
    assert all[..|all| - 1] == fields && all[|all| - 1] == f;
    EntriesAfter(fields, f);
    LatestData(fields, f);
  }

  lemma LatestData(fields: seq<Field>, f: Field)
    ensures LastData(fields + [f]) == if Holds(f, 6) || Holds(f, 7) || Holds(f, 8) then Some(f) else LastData(fields)
    ensures LastData(fields).Some? ==> LastData(fields).value.LengthField? && 6 <= LastData(fields).value.number <= 8
  {
    var all := fields + [f];
    assert all[..|all| - 1] == fields;
    DataIsData(fields);
  }

  lemma {:induction false} DataIsData(fields: seq<Field>)
    ensures LastData(fields).Some? ==> LastData(fields).value.LengthField? && 6 <= LastData(fields).value.number <= 8
  {
    if fields != [] {
      DataIsData(fields[..|fields| - 1]);
    }
  }

  lemma AcceptedLast(most: seq<Field>, last: Field, limit: nat)
    ensures EventAccepted(most + [last], limit) <==> EventAccepted(most, limit) && EventReason(most, last, limit).None?
    ensures EventAccepted(most, limit) && EventReason(most, last, limit).Some?
            ==> EventRefused(most + [last], limit, |most|, EventReason(most, last, limit).value)
    ensures forall i: nat, e :: EventRefused(most, limit, i, e) ==> EventRefused(most + [last], limit, i, e)
  {
    hide EventReason;
    var fields := most + [last];
    assert fields[|most|] == last && fields[..|most|] == most;
    assert forall j :: 0 <= j < |most| ==> fields[j] == most[j] && fields[..j] == most[..j];
    if EventAccepted(fields, limit) {
      assert EventReason(fields[..|most|], fields[|most|], limit).None?;
      forall j | 0 <= j < |most|
        ensures EventReason(most[..j], most[j], limit).None?
      {
        assert EventReason(fields[..j], fields[j], limit).None?;
      }
    }
  }

  lemma {:induction false} EventFields(fields: seq<Field>, options: DecodeOptions)
    ensures var r, limit := Visits(EventVisitor(options), EMPTY_RAW, fields), options.maxAttributeCount;
            && (r.Ok? <==> EventAccepted(fields, limit)) && (r.Ok? ==> r.value == Told(fields) && r.value.entries == CountOf(fields, 5))
            && (r.Err? ==> exists i: nat :: EventRefused(fields, limit, i, r.error))
    decreases |fields|
  {
    hide EventReason, StoreField, AfterField, CountOf;
    if fields == [] {
      NothingTold();
    } else {
      hide Visits, Told, EventAccepted, EventRefused;
      var most, last := fields[..|fields| - 1], fields[|fields| - 1];
      assert fields == most + [last];
      EventFields(most, options);
      VisitsLast(EventVisitor(options), EMPTY_RAW, fields);
      AcceptedLast(most, last, options.maxAttributeCount);
      var r := Visits(EventVisitor(options), EMPTY_RAW, most);
      if r.Ok? {
        StoredExactly(options, r.value, most, last);
        AnyIsRead(most, last, options.maxAttributeCount);
        if EventReason(most, last, options.maxAttributeCount).None? {
          ToldAfter(most, last);
        }
      }
    }
  }

  lemma AnyIsRead(before: seq<Field>, f: Field, limit: nat)
    ensures EventReason(before, f, limit).None? && Holds(f, 8) ==> AnyOf(f.body).Ok?
  {
    hide AnyOf, ValidUriReference, Utf8.WellFormed, EntryOf, CountOf;
  }

  lemma NothingTold()
    ensures Told([]) == EMPTY_RAW && CountOf([], 5) == 0
  {
    assert EntriesIn([]) == map[];
  }

  /** The scan of any octets, told without it: they are accepted exactly when they are whole fields and none
      is refused; then the record is what the fields tell, and otherwise the first refusal is the error. */
  lemma ScanExactly(body: bytes, options: DecodeOptions)
    ensures var fields, limit, r := FieldsOf(body), options.maxAttributeCount, Scan(body, options);
            && (r.Ok? <==> fields.complete && EventAccepted(fields.read, limit))
            && (r.Ok? ==> r.value == Told(fields.read))
            && (r.Err? ==> if EventAccepted(fields.read, limit) then r.error == ParseError
                           else exists i: nat :: EventRefused(fields.read, limit, i, r.error))
  {
    hide FieldsOf, Visits, EventAccepted, EventRefused, Told, StoreField;
    EventFields(FieldsOf(body).read, options);
  }

  // Fields that say nothing

  /** No field of an event: any varint, and any number above 8. */
  predicate Unknown(f: Field) {
    f.VarintField? || f.number > 8
  }

  lemma {:induction false} VisitsInParts<S>(visit: (S, Field) -> Result<S>, start: S, a: seq<Field>, b: seq<Field>)
    ensures Visits(visit, start, a + b)
            == match Visits(visit, start, a)
               case Err(e) => Err(e)
               case Ok(s) => Visits(visit, s, b)
    decreases |a|
  {
    if a == [] {
      assert a + b == b;
    } else {
      assert (a + b)[1..] == a[1..] + b;
      if visit(start, a[0]).Ok? {
        VisitsInParts(visit, visit(start, a[0]).value, a[1..], b);
      }
    }
  }

  lemma {:induction false} UnknownAreSkipped(options: DecodeOptions, into: Raw, fields: seq<Field>)
    requires forall i :: 0 <= i < |fields| ==> Unknown(fields[i])
    ensures Visits(EventVisitor(options), into, fields) == Ok(into)
    decreases |fields|
  {
    hide StoreRequired, StoreAttributeEntry, StoreData;
    if fields != [] {
      assert Unknown(fields[0]);
      UnknownAreSkipped(options, into, fields[1..]);
    }
  }

  /** Whole fields that are unknown change neither the answer nor the error, wherever they stand between
      others. */
  lemma UnknownFieldsAreSkipped(before: bytes, unknown: bytes, after: bytes, options: DecodeOptions)
    requires FieldsOf(before).complete && FieldsOf(unknown).complete
    requires forall i :: 0 <= i < |FieldsOf(unknown).read| ==> Unknown(FieldsOf(unknown).read[i])
    ensures Scan(before + unknown + after, options) == Scan(before + after, options)
    ensures |before + unknown + after| <= options.maxEncodedSize
            ==> Decode(before + unknown + after, options) == Decode(before + after, options)
  {
    hide FieldsOf, Visits, Unknown, StoreField, BuildEvent;
    var a, x, b := FieldsOf(before).read, FieldsOf(unknown).read, FieldsOf(after).read;
    WireReads.FieldsJoin(before, unknown);
    WireReads.FieldsJoin(before + unknown, after);
    WireReads.FieldsJoin(before, after);
    var visit := EventVisitor(options);
    VisitsInParts(visit, EMPTY_RAW, a + x, b);
    VisitsInParts(visit, EMPTY_RAW, a, x);
    VisitsInParts(visit, EMPTY_RAW, a, b);
    if Visits(visit, EMPTY_RAW, a).Ok? {
      UnknownAreSkipped(options, Visits(visit, EMPTY_RAW, a).value, x);
    }
  }

  /** So is one field of an unknown number, in front of anything. */
  lemma UnknownFieldIsSkipped(number: fieldNumber, body: bytes, encoded: bytes, options: DecodeOptions)
    requires number > 8 && |body| < 0x1_0000_0000_0000_0000
    requires |PutField(number, body) + encoded| <= options.maxEncodedSize
    ensures Decode(PutField(number, body) + encoded, options) == Decode(encoded, options)
  {
    hide PutField, Decode, FieldsOf, Scan;
    var field := PutField(number, body);
    OneWholeField(number, body);
    UnknownFieldsAreSkipped([], field, encoded, options);
    assert [] + field + encoded == field + encoded && [] + encoded == encoded;
  }

  lemma OneWholeField(number: fieldNumber, body: bytes)
    requires |body| < 0x1_0000_0000_0000_0000
    ensures FieldsOf(PutField(number, body)) == Fields([LengthField(number, body)], true) && FieldsOf([]).complete
  {
    hide PutField, ReadField;
    FieldOfPut(number, body, []);
    ProtobufLaws.FieldNotEmpty(number, body);
    assert PutField(number, body) + [] == PutField(number, body);
  }

  // From the record to the event

  /** Why an attribute of the map is refused. */
  ghost function AttributeReason(name: bytes, arm: Arm): Option<Errc> {
    if arm.None? then Some(InvalidAttributeValue)
    else if name == NameOf(DataContentType) then
      if arm.value.Text? then MediaTextReason(arm.value.text) else Some(TypeMismatch)
    else if name == NameOf(DataSchema) then
      if arm.value.Uri? || arm.value.UriRef? then TextReason(arm.value.text, InvalidAttributeValue) else Some(TypeMismatch)
    else if name == NameOf(Subject) then
      if arm.value.Text? then TextReason(arm.value.text, InvalidAttributeValue) else Some(TypeMismatch)
    else if name == NameOf(Attributes.Time) then
      if arm.value.Instant? then None else Some(TypeMismatch)
    else NameReason(name)
  }

  lemma NamesApart(name: bytes, r: Reserved)
    ensures name == NameOf(r) <==> ReservedAs(name) == Some(r)
  {
    hide NameOf, ReservedAs;
    NameOfReserved(name);
    ReservedAsName(r);
  }

  lemma AppliedFor(name: bytes, v: AttributeValue, into: Options)
    ensures var reason, r := AttributeReason(name, Some(v)), ProtobufDecode.ApplyAttribute(name, v, into);
            (reason.None? <==> r.Ok?) && (r.Err? ==> reason == Some(r.error))
  {
    hide NameOf, ReservedAs, MakeContentType, MakeOptional, MakeExtensionName, NameReason, TextReason, MediaTextReason;
    NamesApart(name, DataContentType);
    NamesApart(name, DataSchema);
    NamesApart(name, Subject);
    NamesApart(name, Attributes.Time);
    NamesExactly(name);
    if v.Text? || v.Uri? || v.UriRef? {
      ChecksExactly(v.text);
    }
  }

  ghost predicate FirstBadKey(keys: seq<bytes>, attributes: ArmMap, i: nat, e: Errc)
    requires forall k :: k in keys ==> k in attributes
  {
    && i < |keys| && AttributeReason(keys[i], attributes[keys[i]]) == Some(e)
    && forall j :: 0 <= j < i ==> AttributeReason(keys[j], attributes[keys[j]]).None?
  }

  /** The attributes are applied exactly when there is no reason against any; the first in the order of their
      names decides the error. */
  lemma {:induction false} AppliedExactly(keys: seq<bytes>, attributes: ArmMap, into: Options)
    requires forall k :: k in keys ==> k in attributes
    ensures var r := ApplyAttributes(keys, attributes, into);
            && (r.Ok? <==> forall k :: k in keys ==> AttributeReason(k, attributes[k]).None?)
            && (r.Err? ==> exists i: nat :: FirstBadKey(keys, attributes, i, r.error))
    decreases |keys|
  {
    hide AttributeReason, ProtobufDecode.ApplyAttribute;
    if keys != [] {
      var name, tail := keys[0], keys[1..];
      assert forall k :: k in keys <==> k == name || k in tail;
      var all := ApplyAttributes(keys, attributes, into);
      NoArm(name);
      if attributes[name].Some? {
        AppliedFor(name, attributes[name].value, into);
      }
      if AttributeReason(name, attributes[name]).Some? {
        assert FirstBadKey(keys, attributes, 0, all.error);
      } else {
        AppliedExactly(tail, attributes, ProtobufDecode.ApplyAttribute(name, attributes[name].value, into).value);
        if all.Err? {
          var i: nat :| FirstBadKey(tail, attributes, i, all.error);
          LaterBadKey(keys, attributes, i, all.error);
        }
      }
    }
  }

  lemma NoArm(name: bytes)
    ensures AttributeReason(name, None) == Some(InvalidAttributeValue)
  {
  }

  lemma LaterBadKey(keys: seq<bytes>, attributes: ArmMap, i: nat, e: Errc)
    requires keys != [] && forall k :: k in keys ==> k in attributes
    requires AttributeReason(keys[0], attributes[keys[0]]).None? && FirstBadKey(keys[1..], attributes, i, e)
    ensures FirstBadKey(keys, attributes, i + 1, e)
  {
    hide AttributeReason;
    forall j | 0 <= j < i + 1
      ensures AttributeReason(keys[j], attributes[keys[j]]).None?
    {
      if j > 0 {
        assert keys[1..][j - 1] == keys[j];
      }
    }
  }

  /** The first reason against the four required texts, in the order in which they are checked. */
  ghost function RequiredReason(raw: Raw): Option<Errc> {
    if VersionTextReason(raw.version).Some? then VersionTextReason(raw.version)
    else if TextReason(raw.id, MissingRequiredAttribute).Some? then TextReason(raw.id, MissingRequiredAttribute)
    else if TextReason(raw.source, MissingRequiredAttribute).Some? then TextReason(raw.source, MissingRequiredAttribute)
    else TextReason(raw.kind, MissingRequiredAttribute)
  }

  /** The type URL is made the schema. */
  predicate UrlIsSchema(raw: Raw) {
    raw.dataKind == ProtoField && raw.typeUrl != [] && NameOf(DataSchema) !in raw.attributes
  }

  /** When a record is an event, and else why not. */
  lemma BuiltExactly(raw: Raw)
    ensures var r, keys := BuildEvent(raw), Order.Sorted(raw.attributes.Keys);
            if RequiredReason(raw).Some? then r == Err(RequiredReason(raw).value)
            else if exists k :: k in raw.attributes && AttributeReason(k, raw.attributes[k]).Some?
            then r.Err? && exists i: nat :: FirstBadKey(keys, raw.attributes, i, r.error)
            else if UrlIsSchema(raw) && TextReason(raw.typeUrl, InvalidAttributeValue).Some?
            then r == Err(TextReason(raw.typeUrl, InvalidAttributeValue).value)
            else r.Ok? && r.value.id == raw.id && r.value.source == raw.source && r.value.kind == raw.kind
  {
    hide BuildEvent, RequiredReason, TextReason, ApplyAttributes, AttributeReason, NameOf, FirstBadKey, Order.Sorted, ApplyData, UrlIsSchema;
    RequiredPart(raw);
    var keys := Order.Sorted(raw.attributes.Keys);
    AppliedExactly(keys, raw.attributes, NO_OPTIONS);
    var applied := ApplyAttributes(keys, raw.attributes, NO_OPTIONS);
    if applied.Ok? {
      SchemaApplied(raw.attributes, keys);
      DataPart(raw, applied.value);
    }
  }

  /** Building is the four required texts, then the attributes, then the data. */
  lemma RequiredPart(raw: Raw)
    ensures RequiredReason(raw).Some? ==> BuildEvent(raw) == Err(RequiredReason(raw).value)
    ensures RequiredReason(raw).None? ==>
              var applied := ApplyAttributes(Order.Sorted(raw.attributes.Keys), raw.attributes, NO_OPTIONS);
              if applied.Err? then BuildEvent(raw) == Err(applied.error)
              else if ApplyData(raw, applied.value).Err? then BuildEvent(raw) == Err(ApplyData(raw, applied.value).error)
              else BuildEvent(raw) == Ok(Event(raw.id, raw.source, raw.kind, ApplyData(raw, applied.value).value))
  {
    hide TextReason, VersionTextReason, MakeRequired, MakeVersion, ApplyAttributes, ApplyData, Order.Sorted;
    ChecksExactly(raw.version);
    ChecksExactly(raw.id);
    ChecksExactly(raw.source);
    ChecksExactly(raw.kind);
  }

  lemma DataPart(raw: Raw, o: Options)
    requires o.dataschema.Some? <==> NameOf(DataSchema) in raw.attributes
    ensures var r := ApplyData(raw, o);
            if UrlIsSchema(raw) && TextReason(raw.typeUrl, InvalidAttributeValue).Some?
            then r == Err(TextReason(raw.typeUrl, InvalidAttributeValue).value)
            else r.Ok?
  {
    hide TextReason, MakeOptional, NameOf, ProtobufMediaType;
    ChecksExactly(raw.typeUrl);
  }

  lemma SchemaApplied(attributes: ArmMap, keys: seq<bytes>)
    requires (forall k :: k in keys <==> k in attributes) && ApplyAttributes(keys, attributes, NO_OPTIONS).Ok?
    ensures ApplyAttributes(keys, attributes, NO_OPTIONS).value.dataschema.Some? <==> NameOf(DataSchema) in attributes
  {
    hide NameOf, ApplyAttributes, Acceptable, ExtensionsAt, TimeAt;
    ApplyExactly(keys, attributes, NO_OPTIONS);
  }

  /** The text of an attribute of the map. */
  function TextOf(attributes: ArmMap, r: Reserved): Option<bytes> {
    if NameOf(r) in attributes && attributes[NameOf(r)].Some? then
      match attributes[NameOf(r)].value
      case Text(text) => Some(text)
      case Uri(text) => Some(text)
      case UriRef(text) => Some(text)
      case _ => None
    else None
  }

  function InstantOf(attributes: ArmMap): Option<Timestamp.Timestamp> {
    if NameOf(Attributes.Time) in attributes && attributes[NameOf(Attributes.Time)].Some?
       && attributes[NameOf(Attributes.Time)].value.Instant?
    then Some(attributes[NameOf(Attributes.Time)].value.time) else None
  }

  predicate IsExtension(name: bytes) {
    forall r: Reserved :: name != NameOf(r)
  }

  lemma ExtensionIs(name: bytes)
    ensures IsExtension(name) <==> ReservedAs(name).None?
  {
    hide NameOf, ReservedAs;
    NameOfReserved(name);
    forall r: Reserved {
      ReservedAsName(r);
    }
  }

  lemma CollectedByName(attributes: ArmMap, keys: seq<bytes>)
    requires (forall k :: k in keys <==> k in attributes) && AllAcceptable(keys, attributes)
    ensures var o := Collected(keys, attributes, NO_OPTIONS);
            && o.datacontenttype == TextOf(attributes, DataContentType) && o.dataschema == TextOf(attributes, DataSchema)
            && o.subject == TextOf(attributes, Subject) && o.time == InstantOf(attributes) && o.data == NoData
            && (forall k :: k in o.extensions <==> k in attributes && IsExtension(k))
            && (forall k :: k in o.extensions ==> Some(o.extensions[k]) == attributes[k])
  {
    hide NameOf, ReservedAs, MakeContentType, MakeOptional, MakeExtensionName, IsExtension;
    ReservedAsName(DataContentType);
    ReservedAsName(DataSchema);
    ReservedAsName(Subject);
    ReservedAsName(Attributes.Time);
    forall k: bytes {
      ExtensionIs(k);
    }
  }

  lemma MediaTypeIs()
    ensures ProtobufMediaType() == Ascii("application/protobuf")
  {
  }

  /** What the event of an accepted record holds: each attribute as the entry of its name, every other entry
      as an extension, and the data; a payload sent as an Any gives a media type and a schema where the
      entries gave none. */
  lemma BuiltByName(raw: Raw)
    requires BuildEvent(raw).Ok?
    ensures var o, mediaType, schema := BuildEvent(raw).value.rest, TextOf(raw.attributes, DataContentType), TextOf(raw.attributes, DataSchema);
            && o.datacontenttype == (if mediaType.None? && raw.dataKind == ProtoField then Some(ProtobufMediaType()) else mediaType)
            && o.dataschema == (if schema.None? && raw.dataKind == ProtoField && raw.typeUrl != [] then Some(raw.typeUrl) else schema)
            && o.subject == TextOf(raw.attributes, Subject) && o.time == InstantOf(raw.attributes)
            && (forall k :: k in o.extensions <==> k in raw.attributes && IsExtension(k))
            && (forall k :: k in o.extensions ==> Some(o.extensions[k]) == raw.attributes[k])
            && o.data == match raw.dataKind
                         case NoField => NoData
                         case TextField => TextData(raw.data)
                         case ProtoField => BinaryData(raw.data)
                         case BinaryField => if raw.data == [] && mediaType.None? then NoData else BinaryData(raw.data)
  {
    hide NameOf, ApplyAttributes, Collected, Acceptable, MakeVersion, MakeRequired, MakeOptional, TextOf, InstantOf, IsExtension,
      Order.Sorted, AllAcceptable, ProtobufMediaType;
    var keys := Order.Sorted(raw.attributes.Keys);
    ApplyExactly(keys, raw.attributes, NO_OPTIONS);
    CollectedByName(raw.attributes, keys);
    MadeIsItself(raw.typeUrl);
  }

  /** Decoding, told without it: more octets than the limit are refused unread; then the scan decides, and
      then the record it tells. */
  lemma DecodedExactly(encoded: bytes, options: DecodeOptions)
    ensures Decode(encoded, options)
            == if |encoded| > options.maxEncodedSize then Err(OutOfRange)
               else if Scan(encoded, options).Err? then Err(Scan(encoded, options).error)
               else BuildEvent(Told(FieldsOf(encoded).read))
  {
    hide Scan, BuildEvent, Told, FieldsOf;
    ScanExactly(encoded, options);
  }

  /** The detailed decoder tells besides the type URL of data that came last and as an Any, if it is not
      empty. */
  lemma DetailedExactly(encoded: bytes, options: DecodeOptions)
    requires DecodeDetailed(encoded, options).Ok?
    ensures var data, url := LastData(FieldsOf(encoded).read), DecodeDetailed(encoded, options).value.typeUrl;
            url == if data.Some? && Holds(data.value, 8) && AnyOf(data.value.body).Ok? && AnyOf(data.value.body).value.typeUrl != []
                   then Some(AnyOf(data.value.body).value.typeUrl) else None
  {
    hide Scan, BuildEvent, FieldsOf, LastBody, EntriesIn, CountOf, AnyOf, LastData;
    ScanExactly(encoded, options);
    var fields := FieldsOf(encoded).read;
    DataIsData(fields);
    LastAnyIsRead(fields, options.maxAttributeCount);
  }

  lemma {:induction false} LastAnyIsRead(fields: seq<Field>, limit: nat)
    requires EventAccepted(fields, limit)
    ensures LastData(fields).Some? && Holds(LastData(fields).value, 8) ==> AnyOf(LastData(fields).value.body).Ok?
    decreases |fields|
  {
    hide EventReason, AnyOf, EventAccepted;
    if fields != [] {
      var most, last := fields[..|fields| - 1], fields[|fields| - 1];
      assert fields == most + [last];
      AcceptedLast(most, last, limit);
      AnyIsRead(most, last, limit);
      LastAnyIsRead(most, limit);
    }
  }

  // Batches

  function BodiesIn(fields: seq<Field>): seq<bytes> {
    if fields == [] then []
    else BodiesIn(fields[..|fields| - 1]) + if Holds(fields[|fields| - 1], 1) then [fields[|fields| - 1].body] else []
  }

  lemma {:induction false} BatchFields(fields: seq<Field>, limit: nat)
    ensures Visits(BatchVisitor(limit), [], fields)
            == if |BodiesIn(fields)| <= limit then Ok(BodiesIn(fields)) else Err(OutOfRange)
    decreases |fields|
  {
    if fields != [] {
      hide Visits;
      BatchFields(fields[..|fields| - 1], limit);
      assert BodiesIn(fields[..|fields| - 1]) + [] == BodiesIn(fields[..|fields| - 1]);
      VisitsLast(BatchVisitor(limit), [], fields);
    }
  }

  /** The events of a batch are the bodies of its fields 1, in their order; too many are refused, whatever
      else the octets hold. */
  lemma BatchExactly(encoded: bytes, options: DecodeOptions)
    ensures var fields := FieldsOf(encoded);
            BatchBodies(encoded, options)
            == if |BodiesIn(fields.read)| > options.maxBatchEventCount then Err(OutOfRange)
               else if !fields.complete then Err(ParseError)
               else Ok(BodiesIn(fields.read))
  {
    hide FieldsOf, Visits, BodiesIn;
    BatchFields(FieldsOf(encoded).read, options.maxBatchEventCount);
  }

  /** They are decoded one by one; the first that is refused gives the error. */
  lemma {:induction false} EventsExactly(bodies: seq<bytes>, options: DecodeOptions)
    ensures var r := DecodeAll(bodies, options);
            && (r.Ok? <==> forall i :: 0 <= i < |bodies| ==> Decode(bodies[i], options).Ok?)
            && (r.Ok? ==> |r.value| == |bodies| && forall i :: 0 <= i < |bodies| ==> Decode(bodies[i], options) == Ok(r.value[i]))
            && (r.Err? ==> exists i: nat :: FirstBadBody(bodies, options, i, r.error))
    decreases |bodies|
  {
    hide Decode;
    if bodies != [] {
      var r := DecodeAll(bodies, options);
      EventsExactly(bodies[1..], options);
      assert forall i :: 0 < i < |bodies| ==> bodies[i] == bodies[1..][i - 1];
      if Decode(bodies[0], options).Err? {
        assert FirstBadBody(bodies, options, 0, r.error);
      } else if r.Err? {
        var i: nat :| FirstBadBody(bodies[1..], options, i, r.error);
        assert FirstBadBody(bodies, options, i + 1, r.error);
      }
    }
  }

  ghost predicate FirstBadBody(bodies: seq<bytes>, options: DecodeOptions, i: nat, e: Errc) {
    i < |bodies| && Decode(bodies[i], options) == Err(e) && forall j :: 0 <= j < i ==> Decode(bodies[j], options).Ok?
  }
}
