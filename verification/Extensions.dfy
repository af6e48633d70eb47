/** The event object and the extension structs stored on it (include/cloudevents/core.hpp), with the typed
    reading of a stored attribute (include/cloudevents/attributes.hpp). */
module Extensions {
  import opened Wrappers
  import opened JsonDom
  import opened Attributes
  import Decimal
  import Timestamp

  // Structs

  datatype Kind = BoolKind | Int32Kind | StringKind | UriKind | UriRefKind | TimeKind

  /** A field of an extension struct; `initial` is what an optional one holds before it is read. */
  datatype Field = Field(name: bytes, kind: Kind, optional: bool, initial: Option<AttributeValue>)

  predicate HasKind(kind: Kind, v: AttributeValue) {
    match kind
    case BoolKind => v.Bool?
    case Int32Kind => v.Integer?
    case StringKind => v.Text?
    case UriKind => v.Uri?
    case UriRefKind => v.UriRef?
    case TimeKind => v.Instant?
  }

  /** A struct: an empty value stands for an empty optional. */
  predicate OfShape(shape: seq<Field>, values: seq<Option<AttributeValue>>) {
    |values| == |shape|
    && forall i :: 0 <= i < |shape| ==>
         if values[i].Some? then HasKind(shape[i].kind, values[i].value) else shape[i].optional
  }

  ghost predicate DistinctNames(shape: seq<Field>) {
    forall i, j :: 0 <= i < j < |shape| ==> shape[i].name != shape[j].name
  }

  // Reading a text as a type

  const DASH: byte := '-' as int

  /** `std::from_chars`: an optional minus, then digits to the end, in range. */
  function ReadInt32(text: bytes): Option<int32> {
    var negative := text != [] && text[0] == DASH;
    var digits := if negative then text[1..] else text;
    if digits == [] || !Decimal.AllDigits(digits) then None else
    var magnitude: int := Decimal.Number(digits);
    var value: int := if negative then -magnitude else magnitude;
    if -0x8000_0000 <= value < 0x8000_0000 then Some(value) else None
  }

  function FromText(kind: Kind, text: bytes): Result<AttributeValue> {
    match kind
    case StringKind => Ok(Text(text))
    case UriKind => Ok(Uri(text))
    case UriRefKind => Ok(UriRef(text))
    case BoolKind =>
      if text == Ascii("true") then Ok(Bool(true))
      else if text == Ascii("false") then Ok(Bool(false))
      else Err(TypeMismatch)
    case Int32Kind => var i := ReadInt32(text); if i.Some? then Ok(Integer(i.value)) else Err(TypeMismatch)
    case TimeKind => var t := Timestamp.Parse(text); if t.Ok? then Ok(Instant(t.value)) else Err(TypeMismatch)
  }

  /** `read_attribute`: the stored value if it has the type, a text if it can be read as the type. */
  function ReadAttribute(kind: Kind, stored: AttributeValue): Result<AttributeValue> {
    if HasKind(kind, stored) then Ok(stored)
    else if stored.Text? then FromText(kind, stored.text)
    else Err(TypeMismatch)
  }

  // The whole struct

  /** The extensions so far and the first refusal, after which no field is stored. */
  datatype Stored = Stored(extensions: map<bytes, AttributeValue>, failure: Option<Errc>)

  function StoreField(s: Stored, field: Field, value: Option<AttributeValue>): Stored {
    if s.failure.Some? then s
    else if value.None? then s.(extensions := s.extensions - {field.name})
    else
      match MakeExtensionName(field.name)
      case Err(e) => s.(failure := Some(e))
      case Ok(name) => s.(extensions := s.extensions[name := value.value])
  }

  function StoreFields(s: Stored, shape: seq<Field>, values: seq<Option<AttributeValue>>): Stored
    requires |values| == |shape|
    decreases |shape|
  {
    if shape == [] then s else StoreFields(StoreField(s, shape[0], values[0]), shape[1..], values[1..])
  }

  function GetField(extensions: map<bytes, AttributeValue>, field: Field): Result<Option<AttributeValue>> {
    if field.name !in extensions then
      if field.optional then Ok(field.initial) else Err(MissingRequiredAttribute)
    else
      var read :- ReadAttribute(field.kind, extensions[field.name]);
      Ok(Some(read))
  }

  function GetFields(extensions: map<bytes, AttributeValue>, shape: seq<Field>): Result<seq<Option<AttributeValue>>> {
    if shape == [] then Ok([]) else
    var first :- GetField(extensions, shape[0]);
    var rest :- GetFields(extensions, shape[1..]);
    Ok([first] + rest)
  }

  // The object

  class CloudEvent {
    const id: bytes
    const source: bytes
    const kind: bytes
    var rest: Options

    function View(): Event
      reads this
    {
      Event(id, source, kind, rest)
    }

    constructor (e: Event)
      ensures View() == e
    {
      id, source, kind, rest := e.id, e.source, e.kind, e.rest;
    }

    method SetData(payload: Payload, mediaType: Option<bytes>)
      requires mediaType.Some? ==> MakeContentType(mediaType.value).Ok?
      modifies this
      ensures rest == old(rest).(data := payload, datacontenttype := mediaType)
      ensures old(ValidEvent(View())) ==> ValidEvent(View())
    {
      rest := rest.(data := payload, datacontenttype := mediaType);
    }

    method SetExtension(name: bytes, value: AttributeValue)
      requires MakeExtensionName(name).Ok?
      modifies this
      ensures rest == old(rest).(extensions := old(rest).extensions[name := value])
      ensures old(ValidEvent(View())) ==> ValidEvent(View())
    {
      hide MakeExtensionName, MakeContentType, OptionalOk, MakeRequired;
      rest := rest.(extensions := rest.extensions[name := value]);
    }

    method RemoveExtension(name: bytes) returns (removed: bool)
      modifies this
      ensures removed <==> name in old(rest).extensions
      ensures rest == old(rest).(extensions := old(rest).extensions - {name})
      ensures old(ValidEvent(View())) ==> ValidEvent(View())
    {
      hide MakeExtensionName, MakeContentType, OptionalOk, MakeRequired;
      removed := name in rest.extensions;
      if removed {
        rest := rest.(extensions := rest.extensions - {name});
      } else {
        assert rest.extensions - {name} == rest.extensions;
      }
    }

    method Extension(name: bytes) returns (stored: Option<AttributeValue>)
      ensures stored == if name in rest.extensions then Some(rest.extensions[name]) else None
    {
      stored := if name in rest.extensions then Some(rest.extensions[name]) else None;
    }

    /** `set`: stores each present field and removes each empty one, up to the first name that is refused. */
    method Set(shape: seq<Field>, values: seq<Option<AttributeValue>>) returns (failure: Option<Errc>)
      requires OfShape(shape, values)
      modifies this
      ensures Stored(rest.extensions, failure) == StoreFields(Stored(old(rest).extensions, None), shape, values)
      ensures rest == old(rest).(extensions := rest.extensions)
      ensures old(ValidEvent(View())) ==> ValidEvent(View())
    {
      hide ValidEvent, HasKind, ReservedAs, ValidName;
      failure := None;
      assert shape[0..] == shape && values[0..] == values;
      for i := 0 to |shape|
        invariant rest == old(rest).(extensions := rest.extensions)
        invariant old(ValidEvent(View())) ==> ValidEvent(View())
        invariant StoreFields(Stored(old(rest).extensions, None), shape, values)
                  == StoreFields(Stored(rest.extensions, failure), shape[i..], values[i..])
      {
        var field, value := shape[i], values[i];
        assert shape[i..][0] == field && shape[i..][1..] == shape[i + 1..];
        assert values[i..][0] == value && values[i..][1..] == values[i + 1..];
        if failure.None? {
          if value.None? {
            var removed := RemoveExtension(field.name);
          } else {
            var name := MakeExtensionName(field.name);
            if name.Err? {
              failure := Some(name.error);
            } else {
              SetExtension(name.value, value.value);
            }
          }
        }
      }
    }

    /** `get`: the first field that cannot be read decides the error. */
    method Get(shape: seq<Field>) returns (r: Result<seq<Option<AttributeValue>>>)
      ensures r == GetFields(rest.extensions, shape)
    {
      hide ReadAttribute;
      var out: seq<Option<AttributeValue>> := [];
      assert shape[0..] == shape;
      Prefixed([], GetFields(rest.extensions, shape));
      var i := 0;
      while i < |shape|
        invariant 0 <= i <= |shape|
        invariant GetFields(rest.extensions, shape) == Prefix(out, GetFields(rest.extensions, shape[i..]))
      {
        var field := shape[i];
        assert shape[i..][0] == field && shape[i..][1..] == shape[i + 1..];
        GetStep(rest.extensions, shape[i..], out);
        var stored := Extension(field.name);
        if stored.None? {
          if !field.optional {
            return Err(MissingRequiredAttribute);
          }
          out := out + [field.initial];
        } else {
          var read := ReadAttribute(field.kind, stored.value);
          if read.Err? {
            return Err(read.error);
          }
          out := out + [Some(read.value)];
        }
        i := i + 1;
      }
      assert out + [] == out;
      r := Ok(out);
    }
  }

  ghost function Prefix(out: seq<Option<AttributeValue>>, r: Result<seq<Option<AttributeValue>>>): Result<seq<Option<AttributeValue>>> {
    if r.Ok? then Ok(out + r.value) else r
  }

  lemma Prefixed(out: seq<Option<AttributeValue>>, r: Result<seq<Option<AttributeValue>>>)
    requires out == []
    ensures Prefix(out, r) == r
  {
    if r.Ok? {
      assert out + r.value == r.value;
    }
  }

  lemma GetStep(extensions: map<bytes, AttributeValue>, shape: seq<Field>, out: seq<Option<AttributeValue>>)
    requires shape != []
    ensures var first := GetField(extensions, shape[0]);
            Prefix(out, GetFields(extensions, shape))
            == if first.Err? then Err(first.error) else Prefix(out + [first.value], GetFields(extensions, shape[1..]))
  {
    hide GetField;
    var first, rest := GetField(extensions, shape[0]), GetFields(extensions, shape[1..]);
    if first.Ok? && rest.Ok? {
      assert out + ([first.value] + rest.value) == out + [first.value] + rest.value;
    }
  }
}
