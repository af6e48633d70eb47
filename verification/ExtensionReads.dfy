/** What a stored attribute is read as at a type, and which structs can be read from an event, told for every
    event, whoever stored the attributes (include/cloudevents/core.hpp, attributes.hpp). */
module ExtensionReads {
  import opened Wrappers
  import opened Attributes
  import opened Extensions
  import opened TextChecks
  import Base64
  import Bindings
  import Decimal
  import ExtensionLaws
  import Timestamp

  /** The text says the value, as binary mode writes it or otherwise. */
  ghost predicate Denotes(text: bytes, v: AttributeValue) {
    match v
    case Bool(b) => text == if b then Ascii("true") else Ascii("false")
    case Integer(i) => exists digits :: ExtensionLaws.Says(text, digits, i)
    case Uri(link) => text == link
    case UriRef(link) => text == link
    case Instant(time) => Timestamp.Parse(text) == Ok(time)
    case _ => false
  }

  lemma TextDenotes(kind: Kind, text: bytes, v: AttributeValue)
    requires HasKind(kind, v) && !kind.StringKind?
    ensures FromText(kind, text) == Ok(v) <==> Denotes(text, v)
  {
    hide ReadInt32, ExtensionLaws.Says, Timestamp.Parse, Ascii;
    ExtensionLaws.NotTrue();
    if kind.Int32Kind? {
      ExtensionLaws.IntegerReadExactly(text, v.i);
    }
  }

  lemma FromTextHasKind(kind: Kind, text: bytes)
    ensures FromText(kind, text).Ok? ==> HasKind(kind, FromText(kind, text).value)
    ensures FromText(kind, text).Err? ==> FromText(kind, text) == Err(TypeMismatch) && !kind.StringKind?
  {
    hide ReadInt32, Timestamp.Parse, Ascii;
  }

  /** A stored value is read as itself where it has the type; a text is read as the value it says. A value of
      another type, or a text that says none, is a mismatch. */
  lemma ReadExactly(kind: Kind, stored: AttributeValue, v: AttributeValue)
    ensures ReadAttribute(kind, stored) == Ok(v)
            <==> HasKind(kind, v) && (stored == v || (stored.Text? && !kind.StringKind? && Denotes(stored.text, v)))
    ensures ReadAttribute(kind, stored).Err? ==> ReadAttribute(kind, stored) == Err(TypeMismatch)
  {
    hide FromText, Denotes;
    KindsApart(kind, stored, v);
    if stored.Text? {
      FromTextHasKind(kind, stored.text);
      if HasKind(kind, v) && !kind.StringKind? {
        TextDenotes(kind, stored.text, v);
      }
    }
  }

  lemma KindsApart(kind: Kind, stored: AttributeValue, v: AttributeValue)
    ensures HasKind(kind, stored) && stored.Text? ==> kind.StringKind?
    ensures kind.StringKind? ==> (HasKind(kind, v) <==> v.Text?)
  {
  }

  /** What binary mode writes says the value: a text itself, octets in Base64, and an integer without a digit
      too many. (What a time is written as, TimestampReads tells.) */
  lemma WrittenDenotes(v: AttributeValue)
    requires !v.Instant?
    ensures v.Bool? || v.Integer? || v.Uri? || v.UriRef? ==> Denotes(Bindings.RenderAttribute(v), v)
    ensures v.Text? ==> Bindings.RenderAttribute(v) == v.text
    ensures v.Binary? ==> Base64.Decode(Bindings.RenderAttribute(v)) == Ok(v.octets)
    ensures v.Integer? ==> var text := Bindings.RenderAttribute(v);
                           && (v.i != 0 ==> text[0] != 48 && (text[0] == 45 ==> |text| > 1 && text[1] != 48))
                           && (v.i == 0 ==> text == [48])
  {
    hide Ascii, Decimal.Number, Decimal.Plain, Base64.Encode, Base64.Decode;
    if v.Binary? {
      Base64.RoundTrip(v.octets);
    }
    if v.Integer? {
      ExtensionLaws.IntegerReturns(v.i);
      ExtensionLaws.IntegerReadExactly(Bindings.SignedText(v.i), v.i);
      var n: int := v.i;
      PlainStarts(if n < 0 then -n else n);
    }
  }

  lemma {:induction false} PlainStarts(n: nat)
    ensures n != 0 ==> Decimal.Plain(n)[0] != 48
    ensures n == 0 ==> Decimal.Plain(n) == [48]
    ensures Decimal.Plain(n)[0] != 45
  {
    if n >= 10 {
      PlainStarts(n / 10);
    }
  }

  // Structs

  /** The event has for the field what it holds when it is read. */
  predicate Gives(extensions: map<bytes, AttributeValue>, field: Field, value: Option<AttributeValue>) {
    if field.name in extensions then value.Some? && ReadAttribute(field.kind, extensions[field.name]) == Ok(value.value)
    else field.optional && value == field.initial
  }

  /** Why a field cannot be read. */
  function FieldReason(extensions: map<bytes, AttributeValue>, field: Field): Option<Errc> {
    if field.name !in extensions then if field.optional then None else Some(MissingRequiredAttribute)
    else if ReadAttribute(field.kind, extensions[field.name]).Err? then Some(TypeMismatch)
    else None
  }

  ghost predicate FirstBadField(extensions: map<bytes, AttributeValue>, shape: seq<Field>, i: nat, e: Errc) {
    i < |shape| && FieldReason(extensions, shape[i]) == Some(e) && forall j :: 0 <= j < i ==> FieldReason(extensions, shape[j]).None?
  }

  lemma OneField(extensions: map<bytes, AttributeValue>, field: Field)
    ensures var r, reason := GetField(extensions, field), FieldReason(extensions, field);
            && (r.Ok? <==> reason.None?) && (r.Ok? ==> Gives(extensions, field, r.value)) && (r.Err? ==> reason == Some(r.error))
    ensures forall value :: Gives(extensions, field, value) ==> GetField(extensions, field) == Ok(value)
  {
    hide ReadAttribute;
    if field.name in extensions {
      var stored := extensions[field.name];
      if ReadAttribute(field.kind, stored).Err? {
        ReadExactly(field.kind, stored, stored);
      }
    }
  }

  /** A struct is read exactly when every field is: from the attribute of its name, or, when it is optional and
      there is none, as what it starts out as. The first field that is not decides the error. */
  lemma {:induction false} StructReadExactly(extensions: map<bytes, AttributeValue>, shape: seq<Field>)
    ensures var r := GetFields(extensions, shape);
            && (r.Ok? <==> forall i :: 0 <= i < |shape| ==> FieldReason(extensions, shape[i]).None?)
            && (r.Ok? ==> |r.value| == |shape| && forall i :: 0 <= i < |shape| ==> Gives(extensions, shape[i], r.value[i]))
            && (r.Err? ==> exists i: nat :: FirstBadField(extensions, shape, i, r.error))
    decreases |shape|
  {
    hide GetField, FieldReason, Gives;
    if shape != [] {
      var r := GetFields(extensions, shape);
      OneField(extensions, shape[0]);
      StructReadExactly(extensions, shape[1..]);
      assert forall i :: 0 < i < |shape| ==> shape[i] == shape[1..][i - 1];
      if FieldReason(extensions, shape[0]).Some? {
        assert FirstBadField(extensions, shape, 0, r.error);
      } else if r.Err? {
        var i: nat :| FirstBadField(extensions, shape[1..], i, r.error);
        assert FirstBadField(extensions, shape, i + 1, r.error);
      }
    }
  }

  /** The first present field whose name is no extension's. */
  ghost predicate FirstBadName(shape: seq<Field>, values: seq<Option<AttributeValue>>, i: nat, e: Errc)
    requires |values| == |shape|
  {
    && i < |shape| && values[i].Some? && NameReason(shape[i].name) == Some(e)
    && forall j :: 0 <= j < i && values[j].Some? ==> NameReason(shape[j].name).None?
  }

  /** Storing fails on the first present field whose name is no extension's, and with what is wrong with it. */
  lemma {:induction false} StoringFailsExactly(s: Stored, shape: seq<Field>, values: seq<Option<AttributeValue>>)
    requires |values| == |shape| && s.failure.None?
    ensures var failure := StoreFields(s, shape, values).failure;
            failure.Some? ==> exists i: nat :: FirstBadName(shape, values, i, failure.value)
    decreases |shape|
  {
    hide NameReason, MakeExtensionName;
    if shape != [] {
      var next, failure := StoreField(s, shape[0], values[0]), StoreFields(s, shape, values).failure;
      NamesExactly(shape[0].name);
      if next.failure.Some? {
        ExtensionLaws.FailureStays(next, shape[1..], values[1..]);
        assert FirstBadName(shape, values, 0, next.failure.value);
      } else {
        StoringFailsExactly(next, shape[1..], values[1..]);
        if failure.Some? {
          var i: nat :| FirstBadName(shape[1..], values[1..], i, failure.value);
          assert forall j :: 0 < j < |shape| ==> shape[j] == shape[1..][j - 1] && values[j] == values[1..][j - 1];
          assert FirstBadName(shape, values, i + 1, failure.value);
        }
      }
    }
  }
}
