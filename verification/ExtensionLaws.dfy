/** An extension struct survives the wire: stored on an event, written in binary mode or as JSON, and read
    back with its own types. */
module ExtensionLaws {
  import opened Wrappers
  import opened JsonDom
  import opened Attributes
  import opened Extensions
  import opened JsonFormat
  import Bindings
  import BindingRoundTrip
  import Decimal
  import JsonLaws
  import Timestamp
  import TimestampLaws

  // One value

  lemma IntegerReturns(i: int32)
    ensures ReadInt32(Bindings.SignedText(i)) == Some(i)
  {
    hide Decimal.Plain, Decimal.Number;
    var n: int := i;
    var digits := Decimal.Plain(if n < 0 then -n else n);
    Decimal.NumberOfPlain(if n < 0 then -n else n);
    if n < 0 {
      assert ([DASH] + digits)[1..] == digits;
    } else {
      assert digits[0] != DASH;
    }
  }

  /** Digits that say the number, behind a minus when it is asked for. */
  ghost predicate Says(text: bytes, digits: bytes, i: int) {
    && digits != [] && Decimal.AllDigits(digits)
    && ((text == digits && Decimal.Number(digits) == i) || (text == [DASH] + digits && Decimal.Number(digits) == -i))
  }

  /** A text is read as an int32 exactly when it is digits that say it, with leading zeros or not. */
  lemma IntegerReadExactly(text: bytes, i: int32)
    ensures ReadInt32(text) == Some(i) <==> exists digits :: Says(text, digits, i)
  {
    hide Decimal.Number;
    if digits: bytes :| Says(text, digits, i) {
      assert ([DASH] + digits)[1..] == digits;
      assert digits[0] != DASH;
    }
    if ReadInt32(text) == Some(i) {
      var digits := if text[0] == DASH then text[1..] else text;
      assert text[0] == DASH ==> text == [DASH] + digits;
      assert Says(text, digits, i);
    }
  }

  /** A text is read as a boolean exactly when it is the text of that boolean. */
  lemma BooleanReadExactly(text: bytes, b: bool)
    ensures FromText(BoolKind, text) == Ok(Bool(b)) <==> text == Bindings.RenderAttribute(Bool(b))
  {
    hide Ascii;
    NotTrue();
  }

  predicate ExactValue(v: AttributeValue) {
    v.Instant? ==> TimestampLaws.Exact(v.time)
  }

  lemma NotTrue()
    ensures Ascii("true") != Ascii("false")
  {
    assert |Ascii("true")| != |Ascii("false")|;
  }

  /** A value is read back with its type from its text exactly when it is no time, or one a text can give. */
  lemma TextReturns(kind: Kind, v: AttributeValue)
    requires HasKind(kind, v) && Renderable(v)
    ensures ReadAttribute(kind, Text(Bindings.RenderAttribute(v))) == Ok(v) <==> ExactValue(v)
  {
    hide ReadInt32, Bindings.SignedText, Timestamp.Parse, Timestamp.Render, Timestamp.CanRender, TimestampLaws.Exact, Ascii;
    match kind
    case Int32Kind => IntegerReturns(v.i);
    case BoolKind => NotTrue();
    case TimeKind => TimestampLaws.RenderParsesExactly(v.time);
    case _ =>
  }

  /** JSON keeps booleans and integers themselves and the rest as the same text. */
  lemma JsonReturns(kind: Kind, v: AttributeValue)
    requires HasKind(kind, v) && Renderable(v)
    ensures ReadAttribute(kind, JsonLaws.NormalAttribute(v)) == Ok(v) <==> ExactValue(v)
  {
    hide Timestamp.Parse, Timestamp.Render, Timestamp.CanRender, TimestampLaws.Exact;
    if kind.TimeKind? {
      TimestampLaws.RenderParsesExactly(v.time);
    }
  }

  // What is stored

  /** What the extensions hold after the struct is stored. */
  predicate HoldsField(extensions: map<bytes, AttributeValue>, field: Field, value: Option<AttributeValue>) {
    (field.name in extensions <==> value.Some?) && (value.Some? ==> extensions[field.name] == value.value)
  }

  lemma {:induction false} OthersAreKept(s: Stored, shape: seq<Field>, values: seq<Option<AttributeValue>>, name: bytes)
    requires |values| == |shape| && forall i :: 0 <= i < |shape| ==> shape[i].name != name
    ensures var after := StoreFields(s, shape, values);
            (name in after.extensions <==> name in s.extensions)
            && (name in s.extensions ==> after.extensions[name] == s.extensions[name])
    decreases |shape|
  {
    hide ReservedAs, ValidName;
    if shape != [] {
      OthersAreKept(StoreField(s, shape[0], values[0]), shape[1..], values[1..], name);
    }
  }

  lemma {:induction false} FailureStays(s: Stored, shape: seq<Field>, values: seq<Option<AttributeValue>>)
    requires |values| == |shape| && s.failure.Some?
    ensures StoreFields(s, shape, values) == s
    decreases |shape|
  {
    if shape != [] {
      FailureStays(s, shape[1..], values[1..]);
    }
  }

  /** No later field has the name; a shared name is one that an annotation gave to two members. */
  predicate LastOfName(shape: seq<Field>, i: nat) {
    i < |shape| && forall l :: i < l < |shape| ==> shape[l].name != shape[i].name
  }

  /** After a struct is stored, the extensions hold of each name what the last field of the name says. */
  lemma {:induction false} FieldsAreHeld(s: Stored, shape: seq<Field>, values: seq<Option<AttributeValue>>)
    requires |values| == |shape| && StoreFields(s, shape, values).failure.None?
    ensures forall i: nat :: LastOfName(shape, i) ==> HoldsField(StoreFields(s, shape, values).extensions, shape[i], values[i])
    decreases |shape|
  {
    hide ReservedAs, ValidName;
    if shape != [] {
      var next := StoreField(s, shape[0], values[0]);
      if next.failure.Some? {
        FailureStays(next, shape[1..], values[1..]);
      }
      FieldsAreHeld(next, shape[1..], values[1..]);
      forall i: nat | LastOfName(shape, i)
        ensures HoldsField(StoreFields(s, shape, values).extensions, shape[i], values[i])
      {
        if i == 0 {
          OthersAreKept(next, shape[1..], values[1..], shape[0].name);
        } else {
          assert LastOfName(shape[1..], i - 1);
        }
      }
    }
  }

  /** The last field that has the name of a field. */
  function LastNamed(shape: seq<Field>, i: nat): (j: nat)
    requires i < |shape|
    ensures i <= j < |shape| && shape[j].name == shape[i].name && LastOfName(shape, j)
  {
    LastBelow(shape, i, |shape|)
  }

  function LastBelow(shape: seq<Field>, i: nat, n: nat): (j: nat)
    requires i < n <= |shape| && forall l :: n <= l < |shape| ==> shape[l].name != shape[i].name
    ensures i <= j < |shape| && shape[j].name == shape[i].name && LastOfName(shape, j)
  {
    if shape[n - 1].name == shape[i].name then n - 1 else LastBelow(shape, i, n - 1)
  }

  /** Storing succeeds exactly when every present field has an extension's name. */
  lemma {:induction false} StoredExactly(s: Stored, shape: seq<Field>, values: seq<Option<AttributeValue>>)
    requires |values| == |shape| && s.failure.None?
    ensures StoreFields(s, shape, values).failure.None?
            <==> forall i :: 0 <= i < |shape| && values[i].Some? ==> MakeExtensionName(shape[i].name).Ok?
    decreases |shape|
  {
    hide MakeExtensionName;
    if shape != [] {
      var next := StoreField(s, shape[0], values[0]);
      if next.failure.Some? {
        FailureStays(next, shape[1..], values[1..]);
      } else {
        StoredExactly(next, shape[1..], values[1..]);
      }
    }
  }

  lemma {:induction false} StoredNamesAreValid(s: Stored, shape: seq<Field>, values: seq<Option<AttributeValue>>)
    requires |values| == |shape| && forall k :: k in s.extensions ==> MakeExtensionName(k).Ok?
    ensures forall k :: k in StoreFields(s, shape, values).extensions ==> MakeExtensionName(k).Ok?
    decreases |shape|
  {
    hide ReservedAs, ValidName;
    if shape != [] {
      StoredNamesAreValid(StoreField(s, shape[0], values[0]), shape[1..], values[1..]);
    }
  }

  // What is read back

  /** Each present value comes back from what the wire made of it. */
  predicate Returned(extensions: map<bytes, AttributeValue>, field: Field, value: Option<AttributeValue>) {
    GetField(extensions, field) == Ok(value)
  }

  lemma {:induction false} AllReturned(extensions: map<bytes, AttributeValue>, shape: seq<Field>, values: seq<Option<AttributeValue>>)
    requires |values| == |shape|
    ensures GetFields(extensions, shape) == Ok(values) <==> forall i :: 0 <= i < |shape| ==> Returned(extensions, shape[i], values[i])
  {
    hide GetField;
    if shape != [] {
      AllReturned(extensions, shape[1..], values[1..]);
      if GetFields(extensions, shape[1..]).Ok? {
        GetLength(extensions, shape[1..]);
      }
      assert values == [values[0]] + values[1..];
      var first, rest := GetField(extensions, shape[0]), GetFields(extensions, shape[1..]);
      if first.Ok? && rest.Ok? {
        assert ([first.value] + rest.value)[1..] == rest.value;
      }
      AllOrFirst(extensions, shape, values);
    }
  }

  lemma AllOrFirst(extensions: map<bytes, AttributeValue>, shape: seq<Field>, values: seq<Option<AttributeValue>>)
    requires |values| == |shape| && shape != []
    ensures (forall i :: 0 <= i < |shape| ==> Returned(extensions, shape[i], values[i]))
            <==> Returned(extensions, shape[0], values[0])
                 && forall i :: 0 <= i < |shape[1..]| ==> Returned(extensions, shape[1..][i], values[1..][i])
  {
    hide Returned;
    if forall i :: 0 <= i < |shape| ==> Returned(extensions, shape[i], values[i]) {
      forall i | 0 <= i < |shape[1..]|
        ensures Returned(extensions, shape[1..][i], values[1..][i])
      {
        assert shape[1..][i] == shape[i + 1] && values[1..][i] == values[i + 1];
      }
    }
    if Returned(extensions, shape[0], values[0])
       && forall i :: 0 <= i < |shape[1..]| ==> Returned(extensions, shape[1..][i], values[1..][i]) {
      forall i | 0 <= i < |shape|
        ensures Returned(extensions, shape[i], values[i])
      {
        if i > 0 {
          assert shape[1..][i - 1] == shape[i] && values[1..][i - 1] == values[i];
        }
      }
    }
  }

  lemma {:induction false} GetLength(extensions: map<bytes, AttributeValue>, shape: seq<Field>)
    requires GetFields(extensions, shape).Ok?
    ensures |GetFields(extensions, shape).value| == |shape|
  {
    hide GetField;
    if shape != [] {
      GetLength(extensions, shape[1..]);
    }
  }

  /** How a stored value travels: as its text in binary mode, and in the JSON format as JSON keeps it. */
  datatype Carrier = AsText | AsJson

  function Carried(carrier: Carrier, v: AttributeValue): AttributeValue
    requires Renderable(v)
  {
    if carrier == AsText then Text(Bindings.RenderAttribute(v)) else JsonLaws.NormalAttribute(v)
  }

  lemma CarriedReturns(carrier: Carrier, kind: Kind, v: AttributeValue)
    requires HasKind(kind, v) && Renderable(v)
    ensures ReadAttribute(kind, Carried(carrier, v)) == Ok(v) <==> ExactValue(v)
  {
    hide HasKind, Renderable, ReadAttribute, ExactValue;
    if carrier == AsText {
      TextReturns(kind, v);
    } else {
      JsonReturns(kind, v);
    }
  }

  /** A field that comes back: no time a text cannot give, no empty optional that starts out filled. */
  predicate RecoverableField(field: Field, value: Option<AttributeValue>) {
    if value.Some? then ExactValue(value.value) else field.initial.None?
  }

  /** A field whose name a later field takes comes back if what is carried of that one reads as its value. */
  predicate ReadsTheLast(carrier: Carrier, field: Field, value: Option<AttributeValue>, last: Option<AttributeValue>) {
    if last.None? then field.optional && value == field.initial
    else value.Some? && Renderable(last.value) && ReadAttribute(field.kind, Carried(carrier, last.value)) == Ok(value.value)
  }

  predicate ComesBack(carrier: Carrier, shape: seq<Field>, values: seq<Option<AttributeValue>>, i: nat)
    requires i < |shape| == |values|
  {
    var j := LastNamed(shape, i);
    if j == i then RecoverableField(shape[i], values[i]) else ReadsTheLast(carrier, shape[i], values[i], values[j])
  }

  predicate Recoverable(carrier: Carrier, shape: seq<Field>, values: seq<Option<AttributeValue>>)
    requires |values| == |shape|
  {
    forall i :: 0 <= i < |shape| ==> ComesBack(carrier, shape, values, i)
  }

  /** Where no two fields share a name, either carrier brings back the structs whose every field comes back. */
  lemma DistinctIsRecoverable(carrier: Carrier, shape: seq<Field>, values: seq<Option<AttributeValue>>)
    requires |values| == |shape| && DistinctNames(shape)
    ensures Recoverable(carrier, shape, values) <==> forall i :: 0 <= i < |shape| ==> RecoverableField(shape[i], values[i])
  {
    hide LastNamed, RecoverableField, ReadsTheLast;
    forall i | 0 <= i < |shape|
      ensures ComesBack(carrier, shape, values, i) <==> RecoverableField(shape[i], values[i])
    {
      assert LastNamed(shape, i) == i;
    }
  }

  lemma FieldReturns(carrier: Carrier, after: map<bytes, AttributeValue>, field: Field, value: Option<AttributeValue>,
                     last: Option<AttributeValue>)
    requires field.name in after <==> last.Some?
    requires last.Some? ==> Renderable(last.value) && after[field.name] == Carried(carrier, last.value)
    ensures Returned(after, field, value) <==> ReadsTheLast(carrier, field, value, last)
  {
    hide ReadAttribute, Carried, Renderable;
  }

  lemma LastReturns(carrier: Carrier, field: Field, value: Option<AttributeValue>)
    requires if value.Some? then HasKind(field.kind, value.value) && Renderable(value.value) else field.optional
    ensures ReadsTheLast(carrier, field, value, value) <==> RecoverableField(field, value)
  {
    hide ReadAttribute, Carried, Renderable, HasKind, ExactValue;
    if value.Some? {
      CarriedReturns(carrier, field.kind, value.value);
    }
  }

  /** A struct read from what was carried of the extensions that hold it. */
  lemma StructReturns(carrier: Carrier, before: map<bytes, AttributeValue>, after: map<bytes, AttributeValue>, shape: seq<Field>,
                      values: seq<Option<AttributeValue>>)
    requires OfShape(shape, values)
    requires forall i: nat :: LastOfName(shape, i) ==> HoldsField(before, shape[i], values[i])
    requires after.Keys == before.Keys
    requires forall k :: k in before ==> Renderable(before[k]) && after[k] == Carried(carrier, before[k])
    ensures GetFields(after, shape) == Ok(values) <==> Recoverable(carrier, shape, values)
  {
    hide HasKind, Renderable, Carried, Returned, ReadsTheLast, RecoverableField, LastNamed, LastOfName;
    forall i | 0 <= i < |shape|
      ensures Returned(after, shape[i], values[i]) <==> ComesBack(carrier, shape, values, i)
    {
      var j := LastNamed(shape, i);
      assert HoldsField(before, shape[j], values[j]);
      FieldReturns(carrier, after, shape[i], values[i], values[j]);
      if j == i {
        LastReturns(carrier, shape[i], values[i]);
      }
    }
    AllReturned(after, shape, values);
  }

  // The theorems

  function WithExtensions(e: Event, extensions: map<bytes, AttributeValue>): Event {
    e.(rest := e.rest.(extensions := extensions))
  }

  /** Storing a struct keeps the event valid. */
  lemma StoringKeepsValid(e: Event, shape: seq<Field>, values: seq<Option<AttributeValue>>)
    requires ValidEvent(e) && |values| == |shape|
    ensures ValidEvent(WithExtensions(e, StoreFields(Stored(e.rest.extensions, None), shape, values).extensions))
  {
    hide MakeExtensionName, MakeContentType, OptionalOk, MakeRequired, StoreFields;
    StoredNamesAreValid(Stored(e.rest.extensions, None), shape, values);
  }

  lemma RenderedIsCarried(extensions: map<bytes, AttributeValue>)
    requires forall k :: k in extensions ==> Renderable(extensions[k])
    ensures var after := BindingRoundTrip.RenderedExtensions(extensions);
            after.Keys == extensions.Keys && forall k :: k in extensions ==> after[k] == Carried(AsText, extensions[k])
  {
    hide Renderable, Bindings.RenderAttribute;
  }

  lemma NormalIsCarried(extensions: map<bytes, AttributeValue>)
    requires forall k :: k in extensions ==> Renderable(extensions[k])
    ensures var after := JsonLaws.NormalExtensions(extensions);
            after.Keys == extensions.Keys && forall k :: k in extensions ==> after[k] == Carried(AsJson, extensions[k])
  {
    hide Renderable, JsonLaws.NormalAttribute;
  }

  /** Stored on an event, written by any binding in binary mode and received, a struct reads back as itself
      exactly when it is recoverable: booleans, integers, URIs and times regain their types from texts,
      empty optionals stay empty, and of fields that share a name the last is the one carried. */
  lemma SurvivesBinary(b: Bindings.Binding, e: Event, shape: seq<Field>, values: seq<Option<AttributeValue>>, body: bytes,
                       r: Bindings.Receiver)
    requires ValidEvent(e) && OfShape(shape, values)
    requires var s := StoreFields(Stored(e.rest.extensions, None), shape, values);
             var stored := WithExtensions(e, s.extensions);
             && s.failure.None? && RenderableOptions(stored.rest) && ExactTime(stored.rest)
             && BindingRoundTrip.WellFormedExtensions(stored.rest)
             && Bindings.WriteAttributes(b, stored, []).failure.None?
             && BindingRoundTrip.PlainMediaType(b, stored.rest.datacontenttype)
             && Bindings.ReadBody(body, stored.rest.datacontenttype, r).Ok?
    ensures var stored := WithExtensions(e, StoreFields(Stored(e.rest.extensions, None), shape, values).extensions);
            var received := Bindings.Received(b, Bindings.WriteAttributes(b, stored, []).entries, body, r);
            && received.Ok?
            && (GetFields(received.value.rest.extensions, shape) == Ok(values) <==> Recoverable(AsText, shape, values))
  {
    hide StoreFields, Renderable, ExactTime, BindingRoundTrip.WellFormedExtensions, Bindings.WriteAttributes,
      BindingRoundTrip.PlainMediaType, Bindings.ReadBody, Bindings.Received, GetFields, Recoverable, ValidEvent, HoldsField, OfShape,
      Carried, LastOfName, BindingRoundTrip.RenderedExtensions;
    ShapeLengths(shape, values);
    var s := StoreFields(Stored(e.rest.extensions, None), shape, values);
    var stored := WithExtensions(e, s.extensions);
    StoringKeepsValid(e, shape, values);
    FieldsAreHeld(Stored(e.rest.extensions, None), shape, values);
    BindingRoundTrip.BinaryRoundTrip(b, stored, body, r);
    RenderedIsCarried(s.extensions);
    StructReturns(AsText, s.extensions, BindingRoundTrip.RenderedExtensions(s.extensions), shape, values);
  }

  lemma ShapeLengths(shape: seq<Field>, values: seq<Option<AttributeValue>>)
    requires OfShape(shape, values)
    ensures |values| == |shape|
  {
  }

  /** The same through the JSON format. */
  lemma SurvivesJson(e: Event, shape: seq<Field>, values: seq<Option<AttributeValue>>, codec: Codec)
    requires ValidEvent(e) && OfShape(shape, values)
    requires var s := StoreFields(Stored(e.rest.extensions, None), shape, values);
             var stored := WithExtensions(e, s.extensions);
             && s.failure.None? && RenderableOptions(stored.rest) && ExactTime(stored.rest) && ToValue(stored, codec).Ok?
    ensures var stored := WithExtensions(e, StoreFields(Stored(e.rest.extensions, None), shape, values).extensions);
            var read := FromValue(ToValue(stored, codec).value);
            && read.Ok?
            && (GetFields(read.value.rest.extensions, shape) == Ok(values) <==> Recoverable(AsJson, shape, values))
  {
    hide StoreFields, Renderable, ExactTime, ToValue, FromValue, GetFields, Recoverable, ValidEvent, HoldsField, OfShape,
      Carried, LastOfName, JsonLaws.NormalExtensions, JsonLaws.NormalData;
    ShapeLengths(shape, values);
    var s := StoreFields(Stored(e.rest.extensions, None), shape, values);
    var stored := WithExtensions(e, s.extensions);
    StoringKeepsValid(e, shape, values);
    FieldsAreHeld(Stored(e.rest.extensions, None), shape, values);
    JsonLaws.JsonRoundTrip(stored, codec);
    NormalIsCarried(s.extensions);
    StructReturns(AsJson, s.extensions, JsonLaws.NormalExtensions(s.extensions), shape, values);
  }
}
