/** Described structs as JSON (include/cloudevents/format/describe_json.hpp): fields of scalar types and
    of optionals, vectors and text-keyed maps of supported types. */
module DescribeJson {
  import opened Wrappers
  import opened JsonDom
  import Order

  // Types and values

  datatype FieldType =
    | BoolType
    | Int32Type
    | Int64Type
    | DoubleType
    | StringType
    | OptionalOf(inner: FieldType)
    | VectorOf(inner: FieldType)
    | MapOf(inner: FieldType)

  datatype Field =
    | BoolField(b: bool)
    | IntField(i: int64)
    | DoubleField(d: Double)
    | StringField(text: bytes)
    | OptionalField(held: Option<Field>)
    | VectorField(elements: seq<Field>)
    | MapField(entries: map<bytes, Field>)

  const EMPTY := OptionalField(None)

  predicate FitsInt32(i: int) {
    -0x8000_0000 <= i < 0x8000_0000
  }

  predicate HasType(t: FieldType, f: Field) {
    match t
    case BoolType => f.BoolField?
    case Int32Type => f.IntField? && FitsInt32(f.i)
    case Int64Type => f.IntField?
    case DoubleType => f.DoubleField?
    case StringType => f.StringField?
    case OptionalOf(u) => f.OptionalField? && (f.held.Some? ==> HasType(u, f.held.value))
    case VectorOf(u) => f.VectorField? && forall i :: 0 <= i < |f.elements| ==> HasType(u, f.elements[i])
    case MapOf(u) => f.MapField? && forall k :: k in f.entries ==> HasType(u, f.entries[k])
  }

  // Writing

  function ToJson(t: FieldType, f: Field): Json
    requires HasType(t, f)
    decreases t, 0, 0
  {
    match t
    case BoolType => Boolean(f.b)
    case Int32Type => Number(f.i)
    case Int64Type => Number(f.i)
    case DoubleType => Floating(f.d)
    case StringType => Str(f.text)
    case OptionalOf(u) => if f.held.Some? then ToJson(u, f.held.value) else Null
    case VectorOf(u) => Array(ElementsToJson(u, f.elements))
    case MapOf(u) => Object(EntriesToJson(u, Order.Sorted(f.entries.Keys), f.entries))
  }

  function ElementsToJson(u: FieldType, elements: seq<Field>): (r: seq<Json>)
    requires forall i :: 0 <= i < |elements| ==> HasType(u, elements[i])
    decreases u, 1, |elements|
  {
    if elements == [] then [] else [ToJson(u, elements[0])] + ElementsToJson(u, elements[1..])
  }

  function EntriesToJson(u: FieldType, keys: seq<bytes>, entries: map<bytes, Field>): seq<Member>
    requires forall k :: k in keys ==> k in entries && HasType(u, entries[k])
    decreases u, 1, |keys|
  {
    if keys == [] then []
    else [Member(keys[0], ToJson(u, entries[keys[0]]))] + EntriesToJson(u, keys[1..], entries)
  }

  // Reading

  function ScalarFromJson(t: FieldType, held: Json, codec: Codec): Result<Field>
    requires !t.OptionalOf? && !t.VectorOf? && !t.MapOf?
  {
    match t
    case BoolType => if held.Boolean? then Ok(BoolField(held.b)) else Err(TypeMismatch)
    case StringType => if held.Str? then Ok(StringField(held.text)) else Err(TypeMismatch)
    case DoubleType =>
      if held.Number? then Ok(DoubleField(codec.toDouble(held.i)))
      else if held.Floating? then Ok(DoubleField(held.d))
      else Err(TypeMismatch)
    case Int64Type => if held.Number? then Ok(IntField(held.i)) else Err(TypeMismatch)
    case Int32Type =>
      if !held.Number? then Err(TypeMismatch)
      else if !FitsInt32(held.i) then Err(OutOfRange)
      else Ok(IntField(held.i))
  }

  function FromJson(t: FieldType, held: Json, codec: Codec): Result<Field>
    decreases t, 0, 0
  {
    match t
    case OptionalOf(u) =>
      if held.Null? then Ok(EMPTY) else
      var inner :- FromJson(u, held, codec);
      Ok(OptionalField(Some(inner)))
    case VectorOf(u) =>
      if !held.Array? then Err(TypeMismatch) else
      var elements :- ElementsFromJson(u, held.elements, codec);
      Ok(VectorField(elements))
    case MapOf(u) =>
      if !held.Object? then Err(TypeMismatch) else
      var entries :- EntriesFromJson(u, held.members, map[], codec);
      Ok(MapField(entries))
    case _ => ScalarFromJson(t, held, codec)
  }

  /** The first element that fails decides the error. */
  function ElementsFromJson(u: FieldType, elements: seq<Json>, codec: Codec): Result<seq<Field>>
    decreases u, 1, |elements|
  {
    if elements == [] then Ok([]) else
    var first :- FromJson(u, elements[0], codec);
    var rest :- ElementsFromJson(u, elements[1..], codec);
    Ok([first] + rest)
  }

  /** Of the members of a name the last is kept. */
  function EntriesFromJson(u: FieldType, members: seq<Member>, before: map<bytes, Field>, codec: Codec): Result<map<bytes, Field>>
    decreases u, 1, |members|
  {
    if members == [] then Ok(before) else
    var first :- FromJson(u, members[0].item, codec);
    EntriesFromJson(u, members[1..], before[members[0].key := first], codec)
  }

  // What is read back

  /** The value that is read back: an optional that holds something written as null comes back empty. */
  function Collapsed(t: FieldType, f: Field): Field
    requires HasType(t, f)
    decreases t, 0
  {
    match t
    case OptionalOf(u) =>
      if f.held.None? || ToJson(u, f.held.value) == Null then EMPTY
      else OptionalField(Some(Collapsed(u, f.held.value)))
    case VectorOf(u) => VectorField(CollapsedElements(u, f.elements))
    case MapOf(u) => MapField(CollapsedEntries(u, f.entries))
    case _ => f
  }

  function CollapsedElements(u: FieldType, elements: seq<Field>): (r: seq<Field>)
    requires forall i :: 0 <= i < |elements| ==> HasType(u, elements[i])
    ensures |r| == |elements|
    ensures forall i :: 0 <= i < |elements| ==> r[i] == Collapsed(u, elements[i])
    decreases u, 1
  {
    seq(|elements|, i requires 0 <= i < |elements| => Collapsed(u, elements[i]))
  }

  function CollapsedEntries(u: FieldType, entries: map<bytes, Field>): (r: map<bytes, Field>)
    requires forall k :: k in entries ==> HasType(u, entries[k])
    ensures r.Keys == entries.Keys
    ensures forall k :: k in entries ==> r[k] == Collapsed(u, entries[k])
    decreases u, 1
  {
    map k | k in entries :: Collapsed(u, entries[k])
  }

  lemma {:induction false} FieldReadsBack(t: FieldType, f: Field, codec: Codec)
    requires HasType(t, f)
    ensures FromJson(t, ToJson(t, f), codec) == Ok(Collapsed(t, f))
    decreases t, 0, 0
  {
    hide Order.Sorted;
    match t
    case OptionalOf(u) =>
      if f.held.Some? {
        FieldReadsBack(u, f.held.value, codec);
      }
    case VectorOf(u) =>
      ElementsReadBack(u, f.elements, CollapsedElements(u, f.elements), codec);
    case MapOf(u) =>
      MapReadsBack(u, f.entries, codec);
    case _ =>
  }

  /** The entries of some of the keys. */
  function CollapsedAt(u: FieldType, keys: seq<bytes>, entries: map<bytes, Field>): map<bytes, Field>
    requires forall k :: k in keys ==> k in entries && HasType(u, entries[k])
  {
    map k | k in keys :: Collapsed(u, entries[k])
  }

  lemma MapReadsBack(u: FieldType, entries: map<bytes, Field>, codec: Codec)
    requires forall k :: k in entries ==> HasType(u, entries[k])
    ensures EntriesFromJson(u, EntriesToJson(u, Order.Sorted(entries.Keys), entries), map[], codec)
            == Ok(CollapsedEntries(u, entries))
    decreases u, 2
  {
    hide Collapsed, HasType, Order.Sorted, EntriesFromJson, EntriesToJson, CollapsedAt, CollapsedEntries;
    var keys := Order.Sorted(entries.Keys);
    EntriesReadBack(u, keys, entries, map[], codec);
    AtEveryKey(u, keys, entries);
  }

  lemma AtEveryKey(u: FieldType, keys: seq<bytes>, entries: map<bytes, Field>)
    requires forall k :: k in keys <==> k in entries
    requires forall k :: k in entries ==> HasType(u, entries[k])
    ensures map[] + CollapsedAt(u, keys, entries) == CollapsedEntries(u, entries)
  {
    hide Collapsed, HasType;
    assert map[] + CollapsedAt(u, keys, entries) == CollapsedEntries(u, entries);
  }

  lemma ThenTheRest(u: FieldType, keys: seq<bytes>, entries: map<bytes, Field>, before: map<bytes, Field>)
    requires keys != [] && forall k :: k in keys ==> k in entries && HasType(u, entries[k])
    ensures before[keys[0] := Collapsed(u, entries[keys[0]])] + CollapsedAt(u, keys[1..], entries)
            == before + CollapsedAt(u, keys, entries)
  {
    hide Collapsed, HasType;
    assert keys == [keys[0]] + keys[1..];
  }

  lemma {:induction false} ElementsReadBack(u: FieldType, elements: seq<Field>, collapsed: seq<Field>, codec: Codec)
    requires forall i :: 0 <= i < |elements| ==> HasType(u, elements[i])
    requires |collapsed| == |elements| && forall i :: 0 <= i < |elements| ==> collapsed[i] == Collapsed(u, elements[i])
    ensures ElementsFromJson(u, ElementsToJson(u, elements), codec) == Ok(collapsed)
    decreases u, 1, |elements|
  {
    hide ToJson, FromJson, Collapsed, HasType;
    if elements != [] {
      FieldReadsBack(u, elements[0], codec);
      ElementsReadBack(u, elements[1..], collapsed[1..], codec);
      assert ElementsToJson(u, elements)[1..] == ElementsToJson(u, elements[1..]);
      assert [collapsed[0]] + collapsed[1..] == collapsed;
    }
  }

  lemma {:induction false} EntriesReadBack(u: FieldType, keys: seq<bytes>, entries: map<bytes, Field>, before: map<bytes, Field>, codec: Codec)
    requires forall k :: k in keys ==> k in entries && HasType(u, entries[k])
    ensures EntriesFromJson(u, EntriesToJson(u, keys, entries), before, codec)
            == Ok(before + CollapsedAt(u, keys, entries))
    decreases u, 1, |keys|
  {
    hide ToJson, FromJson, Collapsed, HasType;
    if keys == [] {
      assert before + CollapsedAt(u, [], entries) == before;
    } else {
      hide CollapsedAt;
      FieldReadsBack(u, entries[keys[0]], codec);
      EntriesReadBack(u, keys[1..], entries, before[keys[0] := Collapsed(u, entries[keys[0]])], codec);
      assert EntriesToJson(u, keys, entries)[1..] == EntriesToJson(u, keys[1..], entries);
      ThenTheRest(u, keys, entries, before);
    }
  }

  /** No optional anywhere in the value holds an empty optional. */
  predicate NoEmptyHeld(t: FieldType, f: Field)
    requires HasType(t, f)
  {
    match t
    case OptionalOf(u) => f.held.Some? ==> f.held.value != EMPTY && NoEmptyHeld(u, f.held.value)
    case VectorOf(u) => forall i :: 0 <= i < |f.elements| ==> NoEmptyHeld(u, f.elements[i])
    case MapOf(u) => forall k :: k in f.entries ==> NoEmptyHeld(u, f.entries[k])
    case _ => true
  }

  lemma {:induction false} NullIsEmpty(t: FieldType, f: Field)
    requires HasType(t, f) && NoEmptyHeld(t, f)
    ensures ToJson(t, f) == Null <==> f == EMPTY
  {
    if t.OptionalOf? && f.held.Some? {
      NullIsEmpty(t.inner, f.held.value);
    }
  }

  lemma {:induction false} CollapsedIsItself(t: FieldType, f: Field)
    requires HasType(t, f)
    ensures Collapsed(t, f) == f <==> NoEmptyHeld(t, f)
  {
    match t
    case OptionalOf(u) =>
      if f.held.Some? {
        CollapsedIsItself(u, f.held.value);
        if NoEmptyHeld(u, f.held.value) {
          NullIsEmpty(u, f.held.value);
        }
      }
    case VectorOf(u) =>
      forall i | 0 <= i < |f.elements| {
        CollapsedIsItself(u, f.elements[i]);
      }
      ElementsCollapse(t, f);
    case MapOf(u) =>
      forall k | k in f.entries {
        CollapsedIsItself(u, f.entries[k]);
      }
      EntriesCollapse(t, f);
    case _ =>
  }

  lemma CollapsedVector(t: FieldType, f: Field)
    requires HasType(t, f) && t.VectorOf?
    ensures Collapsed(t, f) == VectorField(CollapsedElements(t.inner, f.elements))
  {
  }

  lemma CollapsedMap(t: FieldType, f: Field)
    requires HasType(t, f) && t.MapOf?
    ensures Collapsed(t, f) == MapField(CollapsedEntries(t.inner, f.entries))
  {
  }

  lemma ElementsCollapse(t: FieldType, f: Field)
    requires HasType(t, f) && t.VectorOf?
    ensures Collapsed(t, f) == f <==> forall i :: 0 <= i < |f.elements| ==> Collapsed(t.inner, f.elements[i]) == f.elements[i]
  {
    hide NoEmptyHeld;
    hide Collapsed;
    var collapsed := CollapsedElements(t.inner, f.elements);
    assert Collapsed(t, f) == VectorField(collapsed) by { CollapsedVector(t, f); }
    if forall i :: 0 <= i < |f.elements| ==> Collapsed(t.inner, f.elements[i]) == f.elements[i] {
      assert collapsed == f.elements;
    }
    if collapsed == f.elements {
      forall i | 0 <= i < |f.elements|
        ensures Collapsed(t.inner, f.elements[i]) == f.elements[i]
      {
        assert collapsed[i] == f.elements[i];
      }
    }
  }

  lemma EntriesCollapse(t: FieldType, f: Field)
    requires HasType(t, f) && t.MapOf?
    ensures Collapsed(t, f) == f <==> forall k :: k in f.entries ==> Collapsed(t.inner, f.entries[k]) == f.entries[k]
  {
    hide NoEmptyHeld;
    hide Collapsed;
    var collapsed := CollapsedEntries(t.inner, f.entries);
    assert Collapsed(t, f) == MapField(collapsed) by { CollapsedMap(t, f); }
    if forall k :: k in f.entries ==> Collapsed(t.inner, f.entries[k]) == f.entries[k] {
      assert collapsed == f.entries;
    }
    if collapsed == f.entries {
      forall k | k in f.entries
        ensures Collapsed(t.inner, f.entries[k]) == f.entries[k]
      {
        assert collapsed[k] == f.entries[k];
      }
    }
  }

  /** A value is read back from its JSON exactly when no optional in it holds an empty optional. */
  lemma FieldRoundTrip(t: FieldType, f: Field, codec: Codec)
    requires HasType(t, f)
    ensures FromJson(t, ToJson(t, f), codec) == Ok(f) <==> NoEmptyHeld(t, f)
  {
    hide *;
    FieldReadsBack(t, f, codec);
    CollapsedIsItself(t, f);
  }

  // Which types round-trip

  /** No optional is directly inside another. */
  predicate FlatOptionals(t: FieldType) {
    match t
    case OptionalOf(u) => !u.OptionalOf? && FlatOptionals(u)
    case VectorOf(u) => FlatOptionals(u)
    case MapOf(u) => FlatOptionals(u)
    case _ => true
  }

  lemma {:induction false} FlatHoldsNoEmpty(t: FieldType, f: Field)
    requires HasType(t, f) && FlatOptionals(t)
    ensures NoEmptyHeld(t, f)
  {
    match t
    case OptionalOf(u) =>
      if f.held.Some? {
        FlatHoldsNoEmpty(u, f.held.value);
      }
    case VectorOf(u) =>
      forall i | 0 <= i < |f.elements| {
        FlatHoldsNoEmpty(u, f.elements[i]);
      }
    case MapOf(u) =>
      forall k | k in f.entries {
        FlatHoldsNoEmpty(u, f.entries[k]);
      }
    case _ =>
  }

  /** A value that does not survive, of a type with an optional directly inside another. */
  function Lost(t: FieldType): (f: Field)
    requires !FlatOptionals(t)
    ensures HasType(t, f) && !NoEmptyHeld(t, f)
  {
    match t
    case OptionalOf(u) => if u.OptionalOf? then OptionalField(Some(EMPTY)) else OptionalField(Some(Lost(u)))
    case VectorOf(u) => var f := VectorField([Lost(u)]); assert f.elements[0] == Lost(u); f
    case MapOf(u) => var f := MapField(map[[] := Lost(u)]); assert [] in f.entries && f.entries[[]] == Lost(u); f
  }

  /** Every value of a type is read back exactly when the type nests no optional directly in another. */
  lemma TypeRoundTrip(t: FieldType, codec: Codec)
    ensures FlatOptionals(t) <==> forall f :: HasType(t, f) ==> FromJson(t, ToJson(t, f), codec) == Ok(f)
  {
    hide HasType, FlatOptionals, NoEmptyHeld, FromJson, ToJson;
    if FlatOptionals(t) {
      forall f | HasType(t, f)
        ensures FromJson(t, ToJson(t, f), codec) == Ok(f)
      {
        FlatHoldsNoEmpty(t, f);
        FieldRoundTrip(t, f, codec);
      }
    } else {
      FieldRoundTrip(t, Lost(t), codec);
    }
  }

  // What is read is well-typed, and reading is stable

  lemma {:induction false} ReadHasType(t: FieldType, held: Json, codec: Codec)
    requires FromJson(t, held, codec).Ok?
    ensures HasType(t, FromJson(t, held, codec).value)
    ensures NoEmptyHeld(t, FromJson(t, held, codec).value)
    ensures FromJson(t, held, codec).value == EMPTY ==> held == Null
    decreases t, 0, 0
  {
    match t
    case OptionalOf(u) =>
      if held != Null {
        ReadHasType(u, held, codec);
      }
    case VectorOf(u) => ElementsHaveType(u, held.elements, codec);
    case MapOf(u) => EntriesHaveType(u, held.members, map[], codec);
    case _ =>
  }

  lemma {:induction false} ElementsHaveType(u: FieldType, elements: seq<Json>, codec: Codec)
    requires ElementsFromJson(u, elements, codec).Ok?
    ensures var r := ElementsFromJson(u, elements, codec).value;
            forall i :: 0 <= i < |r| ==> HasType(u, r[i]) && NoEmptyHeld(u, r[i])
    decreases u, 1, |elements|
  {
    hide FromJson, HasType, NoEmptyHeld;
    if elements != [] {
      ReadHasType(u, elements[0], codec);
      ElementsHaveType(u, elements[1..], codec);
    }
  }

  lemma {:induction false} EntriesHaveType(u: FieldType, members: seq<Member>, before: map<bytes, Field>, codec: Codec)
    requires EntriesFromJson(u, members, before, codec).Ok?
    requires forall k :: k in before ==> HasType(u, before[k]) && NoEmptyHeld(u, before[k])
    ensures var r := EntriesFromJson(u, members, before, codec).value;
            forall k :: k in r ==> HasType(u, r[k]) && NoEmptyHeld(u, r[k])
    decreases u, 1, |members|
  {
    hide FromJson, HasType, NoEmptyHeld;
    if members != [] {
      ReadHasType(u, members[0].item, codec);
      EntriesHaveType(u, members[1..], before[members[0].key := FromJson(u, members[0].item, codec).value], codec);
    }
  }

  /** Whatever was read, of any type, is read back from its own JSON. */
  lemma ReadIsFixedPoint(t: FieldType, held: Json, codec: Codec)
    requires FromJson(t, held, codec).Ok?
    ensures HasType(t, FromJson(t, held, codec).value)
    ensures FromJson(t, ToJson(t, FromJson(t, held, codec).value), codec) == FromJson(t, held, codec)
  {
    hide HasType, NoEmptyHeld, FromJson, ToJson;
    ReadHasType(t, held, codec);
    FieldRoundTrip(t, FromJson(t, held, codec).value, codec);
  }

  /** Somewhere in the document, where the type has an int32, stands a number outside its range. */
  ghost predicate HoldsOutOfRange(t: FieldType, held: Json) {
    match t
    case Int32Type => held.Number? && !FitsInt32(held.i)
    case OptionalOf(u) => HoldsOutOfRange(u, held)
    case VectorOf(u) => held.Array? && exists i :: 0 <= i < |held.elements| && HoldsOutOfRange(u, held.elements[i])
    case MapOf(u) => held.Object? && exists i :: 0 <= i < |held.members| && HoldsOutOfRange(u, held.members[i].item)
    case _ => false
  }

  lemma {:induction false} OutOfRangeIsNotNull(t: FieldType, held: Json)
    requires HoldsOutOfRange(t, held)
    ensures held != Null
  {
    if t.OptionalOf? {
      OutOfRangeIsNotNull(t.inner, held);
    }
  }

  /** Through any nesting of optionals, vectors and maps, a number that does not fit its int32 is refused,
      even where a later member of the name would replace it. */
  lemma {:induction false} OutOfRangeIsRefused(t: FieldType, held: Json, codec: Codec)
    requires HoldsOutOfRange(t, held)
    ensures FromJson(t, held, codec).Err?
    decreases t, 0, 0
  {
    OutOfRangeIsNotNull(t, held);
    match t
    case Int32Type =>
    case OptionalOf(u) => OutOfRangeIsRefused(u, held, codec);
    case VectorOf(u) =>
      var i :| 0 <= i < |held.elements| && HoldsOutOfRange(u, held.elements[i]);
      ElementIsRefused(u, held.elements, i, codec);
    case MapOf(u) =>
      var i :| 0 <= i < |held.members| && HoldsOutOfRange(u, held.members[i].item);
      EntryIsRefused(u, held.members, i, map[], codec);
  }

  lemma {:induction false} ElementIsRefused(u: FieldType, elements: seq<Json>, i: nat, codec: Codec)
    requires i < |elements| && HoldsOutOfRange(u, elements[i])
    ensures ElementsFromJson(u, elements, codec).Err?
    decreases u, 1, |elements|
  {
    hide FromJson, HoldsOutOfRange;
    if i == 0 {
      OutOfRangeIsRefused(u, elements[0], codec);
    } else {
      ElementIsRefused(u, elements[1..], i - 1, codec);
    }
  }

  lemma {:induction false} EntryIsRefused(u: FieldType, members: seq<Member>, i: nat, before: map<bytes, Field>, codec: Codec)
    requires i < |members| && HoldsOutOfRange(u, members[i].item)
    ensures EntriesFromJson(u, members, before, codec).Err?
    decreases u, 1, |members|
  {
    hide FromJson, HoldsOutOfRange;
    var first := FromJson(u, members[0].item, codec);
    if i == 0 {
      OutOfRangeIsRefused(u, members[0].item, codec);
    } else if first.Ok? {
      EntryIsRefused(u, members[1..], i - 1, before[members[0].key := first.value], codec);
    }
  }

  /** The last member of each name. */
  function LastItems(members: seq<Member>, before: map<bytes, Json>): map<bytes, Json> {
    if members == [] then before else LastItems(members[1..], before[members[0].key := members[0].item])
  }

  /** The document with, wherever the type has a map, the last member of each name in the order of names,
      and, where the type has a double, an integer as that double. */
  function Reduced(t: FieldType, held: Json, codec: Codec): Json
    decreases t, 0, 0
  {
    match t
    case DoubleType => if held.Number? then Floating(codec.toDouble(held.i)) else held
    case OptionalOf(u) => Reduced(u, held, codec)
    case VectorOf(u) => if held.Array? then Array(ReducedElements(u, held.elements, codec)) else held
    case MapOf(u) =>
      if !held.Object? then held else
      var last := LastItems(held.members, map[]);
      Object(ReducedItems(u, Order.Sorted(last.Keys), last, codec))
    case _ => held
  }

  function ReducedElements(u: FieldType, elements: seq<Json>, codec: Codec): seq<Json>
    decreases u, 1, |elements|
  {
    if elements == [] then [] else [Reduced(u, elements[0], codec)] + ReducedElements(u, elements[1..], codec)
  }

  function ReducedItems(u: FieldType, keys: seq<bytes>, items: map<bytes, Json>, codec: Codec): seq<Member>
    requires forall k :: k in keys ==> k in items
    decreases u, 1, |keys|
  {
    if keys == [] then []
    else [Member(keys[0], Reduced(u, items[keys[0]], codec))] + ReducedItems(u, keys[1..], items, codec)
  }

  lemma {:induction false} NullIsReduced(t: FieldType, held: Json, codec: Codec)
    ensures Reduced(t, held, codec) == Null <==> held == Null
  {
    if t.OptionalOf? {
      NullIsReduced(t.inner, held, codec);
    }
  }

  /** Of every type, what was read says exactly what stands in the document: written again it is the
      document, but that in a map the last member of a name stands for the name, and an integer read as a
      double is written as one. So no number read as an integer is truncated and no text changed at any depth. */
  lemma {:induction false} IntegersAreNotTruncated(t: FieldType, held: Json, codec: Codec)
    requires FromJson(t, held, codec).Ok?
    ensures HasType(t, FromJson(t, held, codec).value)
    ensures ToJson(t, FromJson(t, held, codec).value) == Reduced(t, held, codec)
    decreases t, 0, 0
  {
    hide Order.Sorted, NoEmptyHeld;
    ReadHasType(t, held, codec);
    match t
    case OptionalOf(u) =>
      if held == Null {
        NullIsReduced(u, held, codec);
      } else {
        IntegersAreNotTruncated(u, held, codec);
      }
    case VectorOf(u) => ElementsAreKept(u, held.elements, codec);
    case MapOf(u) => MapIsKept(u, held.members, codec);
    case _ =>
  }

  lemma {:induction false} ElementsAreKept(u: FieldType, elements: seq<Json>, codec: Codec)
    requires ElementsFromJson(u, elements, codec).Ok?
    ensures var r := ElementsFromJson(u, elements, codec).value;
            (forall i :: 0 <= i < |r| ==> HasType(u, r[i])) && ElementsToJson(u, r) == ReducedElements(u, elements, codec)
    decreases u, 1, |elements|
  {
    hide FromJson, HasType, NoEmptyHeld, ToJson, Reduced;
    ElementsHaveType(u, elements, codec);
    if elements != [] {
      IntegersAreNotTruncated(u, elements[0], codec);
      ElementsAreKept(u, elements[1..], codec);
      var rest := ElementsFromJson(u, elements[1..], codec).value;
      var first := FromJson(u, elements[0], codec).value;
      assert ([first] + rest)[1..] == rest;
    }
  }

  /** The entries read are the last items, each saying what its item says. */
  ghost predicate Says(u: FieldType, entries: map<bytes, Field>, items: map<bytes, Json>, codec: Codec) {
    && entries.Keys == items.Keys
    && forall k :: k in entries ==> HasType(u, entries[k]) && ToJson(u, entries[k]) == Reduced(u, items[k], codec)
  }

  lemma {:induction false} EntriesAreKept(u: FieldType, members: seq<Member>, before: map<bytes, Field>, items: map<bytes, Json>, codec: Codec)
    requires EntriesFromJson(u, members, before, codec).Ok? && Says(u, before, items, codec)
    ensures Says(u, EntriesFromJson(u, members, before, codec).value, LastItems(members, items), codec)
    decreases u, 1, |members|
  {
    hide FromJson, HasType, ToJson, Reduced;
    if members != [] {
      var m := members[0];
      IntegersAreNotTruncated(u, m.item, codec);
      var next := before[m.key := FromJson(u, m.item, codec).value];
      EntriesAreKept(u, members[1..], next, items[m.key := m.item], codec);
    }
  }

  lemma {:induction false} SaidAlike(u: FieldType, keys: seq<bytes>, entries: map<bytes, Field>, items: map<bytes, Json>, codec: Codec)
    requires Says(u, entries, items, codec) && forall k :: k in keys ==> k in entries
    ensures EntriesToJson(u, keys, entries) == ReducedItems(u, keys, items, codec)
    decreases |keys|
  {
    hide HasType, ToJson, Reduced;
    if keys != [] {
      SaidAlike(u, keys[1..], entries, items, codec);
    }
  }

  lemma {:induction false} MapIsKept(u: FieldType, members: seq<Member>, codec: Codec)
    requires EntriesFromJson(u, members, map[], codec).Ok?
    ensures var r, last := EntriesFromJson(u, members, map[], codec).value, LastItems(members, map[]);
            && (forall k :: k in r ==> HasType(u, r[k])) && r.Keys == last.Keys
            && EntriesToJson(u, Order.Sorted(r.Keys), r) == ReducedItems(u, Order.Sorted(last.Keys), last, codec)
    decreases u, 2
  {
    hide HasType, ToJson, Reduced, Order.Sorted, EntriesFromJson, EntriesToJson, ReducedItems, LastItems;
    EntriesAreKept(u, members, map[], map[], codec);
    var r := EntriesFromJson(u, members, map[], codec).value;
    SaidAlike(u, Order.Sorted(r.Keys), r, LastItems(members, map[]), codec);
  }

  // Which values a written value is read as, at any type

  function KeysOf(members: seq<Member>): seq<bytes> {
    seq(|members|, i requires 0 <= i < |members| => members[i].key)
  }

  ghost predicate InOrder(members: seq<Member>) {
    KeysOf(members) == Order.Sorted(set m | m in members :: m.key)
  }

  /** At every depth the members of an object are in the order of their names, each name once. */
  ghost predicate Tidy(held: Json) {
    match held
    case Array(elements) => forall i :: 0 <= i < |elements| ==> Tidy(elements[i])
    case Object(members) => InOrder(members) && forall i :: 0 <= i < |members| ==> Tidy(members[i].item)
    case _ => true
  }

  lemma {:induction false} WrittenIsTidy(t: FieldType, f: Field)
    requires HasType(t, f)
    ensures Tidy(ToJson(t, f))
    decreases t, 0, 0
  {
    hide Order.Sorted, InOrder;
    match t
    case OptionalOf(u) =>
      if f.held.Some? {
        WrittenIsTidy(u, f.held.value);
      }
    case VectorOf(u) => ElementsAreTidy(u, f.elements);
    case MapOf(u) =>
      EntriesAreTidy(u, Order.Sorted(f.entries.Keys), f.entries);
      WrittenInOrder(EntriesToJson(u, Order.Sorted(f.entries.Keys), f.entries), f.entries.Keys);
    case _ =>
  }

  lemma {:induction false} ElementsAreTidy(u: FieldType, elements: seq<Field>)
    requires forall i :: 0 <= i < |elements| ==> HasType(u, elements[i])
    ensures forall i :: 0 <= i < |ElementsToJson(u, elements)| ==> Tidy(ElementsToJson(u, elements)[i])
    decreases u, 1, |elements|
  {
    hide HasType, ToJson, Tidy;
    if elements != [] {
      WrittenIsTidy(u, elements[0]);
      ElementsAreTidy(u, elements[1..]);
    }
  }

  lemma {:induction false} EntriesAreTidy(u: FieldType, keys: seq<bytes>, entries: map<bytes, Field>)
    requires forall k :: k in keys ==> k in entries && HasType(u, entries[k])
    ensures var members := EntriesToJson(u, keys, entries);
            |members| == |keys| && forall i :: 0 <= i < |keys| ==> members[i].key == keys[i] && Tidy(members[i].item)
    decreases u, 1, |keys|
  {
    hide HasType, ToJson, Tidy;
    if keys != [] {
      WrittenIsTidy(u, entries[keys[0]]);
      EntriesAreTidy(u, keys[1..], entries);
    }
  }

  lemma WrittenInOrder(members: seq<Member>, names: set<bytes>)
    requires |members| == |Order.Sorted(names)|
    requires forall i :: 0 <= i < |members| ==> members[i].key == Order.Sorted(names)[i]
    ensures InOrder(members)
  {
    hide Order.Sorted;
    assert KeysOf(members) == Order.Sorted(names);
    forall k
      ensures k in (set m | m in members :: m.key) <==> k in names
    {
      if k in names {
        var i :| 0 <= i < |Order.Sorted(names)| && Order.Sorted(names)[i] == k;
        assert members[i] in members;
      }
    }
    assert (set m | m in members :: m.key) == names;
  }

  lemma {:induction false} LastItemsNames(members: seq<Member>, before: map<bytes, Json>)
    ensures LastItems(members, before).Keys == before.Keys + set m | m in members :: m.key
    decreases |members|
  {
    if members != [] {
      LastItemsNames(members[1..], before[members[0].key := members[0].item]);
      assert members == [members[0]] + members[1..];
    }
  }

  lemma {:induction false} LastItemsAt(members: seq<Member>, before: map<bytes, Json>, key: bytes)
    requires key in before && forall j :: 0 <= j < |members| ==> members[j].key != key
    ensures key in LastItems(members, before) && LastItems(members, before)[key] == before[key]
    decreases |members|
  {
    if members != [] {
      LastItemsAt(members[1..], before[members[0].key := members[0].item], key);
    }
  }

  lemma {:induction false} EachIsLast(members: seq<Member>, before: map<bytes, Json>)
    requires forall i, j :: 0 <= i < j < |members| ==> members[i].key != members[j].key
    ensures forall i :: 0 <= i < |members| ==>
              members[i].key in LastItems(members, before) && LastItems(members, before)[members[i].key] == members[i].item
    decreases |members|
  {
    if members != [] {
      var next := before[members[0].key := members[0].item];
      LastItemsAt(members[1..], next, members[0].key);
      EachIsLast(members[1..], next);
      forall i | 0 <= i < |members|
        ensures members[i].key in LastItems(members, before) && LastItems(members, before)[members[i].key] == members[i].item
      {
        if i > 0 {
          assert members[1..][i - 1] == members[i];
        }
      }
    }
  }

  /** Each member in its place, its item reduced. */
  function ReducedMembers(u: FieldType, members: seq<Member>, codec: Codec): seq<Member> {
    if members == [] then []
    else [Member(members[0].key, Reduced(u, members[0].item, codec))] + ReducedMembers(u, members[1..], codec)
  }

  lemma {:induction false} ItemsInPlace(u: FieldType, members: seq<Member>, items: map<bytes, Json>, codec: Codec)
    requires forall i :: 0 <= i < |members| ==> members[i].key in items && items[members[i].key] == members[i].item
    ensures ReducedItems(u, KeysOf(members), items, codec) == ReducedMembers(u, members, codec)
    decreases |members|
  {
    hide Reduced;
    if members != [] {
      assert KeysOf(members)[0] == members[0].key && KeysOf(members)[1..] == KeysOf(members[1..]);
      ItemsInPlace(u, members[1..], items, codec);
    }
  }

  lemma OrderedIsReduced(u: FieldType, members: seq<Member>, codec: Codec)
    requires InOrder(members)
    ensures Reduced(MapOf(u), Object(members), codec) == Object(ReducedMembers(u, members, codec))
  {
    hide ReducedItems, ReducedMembers, LastItems, InOrder, KeysOf, Order.Sorted;
    OrderedDiffer(members);
    EachIsLast(members, map[]);
    OrderedNames(members);
    ItemsInPlace(u, members, LastItems(members, map[]), codec);
  }

  lemma OrderedNames(members: seq<Member>)
    requires InOrder(members)
    ensures Order.Sorted(LastItems(members, map[]).Keys) == KeysOf(members)
  {
    hide LastItems, KeysOf, Order.Sorted;
    LastItemsNames(members, map[]);
    assert LastItems(members, map[]).Keys == set m | m in members :: m.key;
  }

  lemma OrderedDiffer(members: seq<Member>)
    requires InOrder(members)
    ensures forall i, j :: 0 <= i < j < |members| ==> members[i].key != members[j].key
  {
    hide Order.Sorted, Order.LessEq;
    Order.SortedAscends(set m | m in members :: m.key);
    forall i, j | 0 <= i < j < |members|
      ensures members[i].key != members[j].key
    {
      assert KeysOf(members)[i] != KeysOf(members)[j];
    }
  }

  /** A tidy document and its reduced form are read alike. */
  lemma {:induction false} ReducedReadsAlike(t: FieldType, held: Json, codec: Codec)
    requires Tidy(held)
    ensures FromJson(t, Reduced(t, held, codec), codec) == FromJson(t, held, codec)
    decreases t, 0, 0
  {
    hide Order.Sorted, InOrder, LastItems;
    match t
    case OptionalOf(u) =>
      NullIsReduced(u, held, codec);
      ReducedReadsAlike(u, held, codec);
    case VectorOf(u) =>
      if held.Array? {
        ElementsReadAlike(u, held.elements, codec);
      }
    case MapOf(u) =>
      if held.Object? {
        OrderedIsReduced(u, held.members, codec);
        MembersReadAlike(u, held.members, map[], codec);
      }
    case _ =>
  }

  lemma {:induction false} ElementsReadAlike(u: FieldType, elements: seq<Json>, codec: Codec)
    requires forall i :: 0 <= i < |elements| ==> Tidy(elements[i])
    ensures ElementsFromJson(u, ReducedElements(u, elements, codec), codec) == ElementsFromJson(u, elements, codec)
    decreases u, 1, |elements|
  {
    hide FromJson, Reduced, Tidy;
    if elements != [] {
      ReducedReadsAlike(u, elements[0], codec);
      ElementsReadAlike(u, elements[1..], codec);
      assert ReducedElements(u, elements, codec)[1..] == ReducedElements(u, elements[1..], codec);
    }
  }

  lemma {:induction false} MembersReadAlike(u: FieldType, members: seq<Member>, before: map<bytes, Field>, codec: Codec)
    requires forall i :: 0 <= i < |members| ==> Tidy(members[i].item)
    ensures EntriesFromJson(u, ReducedMembers(u, members, codec), before, codec) == EntriesFromJson(u, members, before, codec)
    decreases u, 1, |members|
  {
    hide FromJson, Reduced, Tidy;
    if members != [] {
      ReducedReadsAlike(u, members[0].item, codec);
      var read := FromJson(u, members[0].item, codec);
      if read.Ok? {
        MembersReadAlike(u, members[1..], before[members[0].key := read.value], codec);
      }
      assert ReducedMembers(u, members, codec)[1..] == ReducedMembers(u, members[1..], codec);
    }
  }

  /** A tidy document is read as a value exactly when the value says it: the value's own JSON is the
      document, up to integers read as doubles, and no optional in it holds an empty one. */
  lemma ReadAsExactly(t: FieldType, held: Json, f: Field, codec: Codec)
    requires Tidy(held) && HasType(t, f)
    ensures FromJson(t, held, codec) == Ok(f) <==> NoEmptyHeld(t, f) && ToJson(t, f) == Reduced(t, held, codec)
  {
    hide FromJson, HasType, NoEmptyHeld, ToJson, Reduced, Tidy;
    FieldRoundTrip(t, f, codec);
    ReducedReadsAlike(t, held, codec);
    if FromJson(t, held, codec) == Ok(f) {
      IntegersAreNotTruncated(t, held, codec);
    }
  }

  predicate HasDouble(t: FieldType) {
    match t
    case DoubleType => true
    case OptionalOf(u) => HasDouble(u)
    case VectorOf(u) => HasDouble(u)
    case MapOf(u) => HasDouble(u)
    case _ => false
  }

  lemma {:induction false} PlainIsReduced(t: FieldType, held: Json, codec: Codec)
    requires Tidy(held) && !HasDouble(t)
    ensures Reduced(t, held, codec) == held
    decreases t, 0, 0
  {
    hide Order.Sorted, InOrder, LastItems, ReducedItems;
    match t
    case OptionalOf(u) => PlainIsReduced(u, held, codec);
    case VectorOf(u) =>
      if held.Array? {
        PlainElements(u, held.elements, codec);
      }
    case MapOf(u) =>
      if held.Object? {
        OrderedIsReduced(u, held.members, codec);
        PlainMembers(u, held.members, codec);
      }
    case _ =>
  }

  lemma {:induction false} PlainElements(u: FieldType, elements: seq<Json>, codec: Codec)
    requires !HasDouble(u) && forall i :: 0 <= i < |elements| ==> Tidy(elements[i])
    ensures ReducedElements(u, elements, codec) == elements
    decreases u, 1, |elements|
  {
    hide HasDouble, Reduced, Tidy;
    if elements != [] {
      PlainIsReduced(u, elements[0], codec);
      PlainElements(u, elements[1..], codec);
    }
  }

  lemma {:induction false} PlainMembers(u: FieldType, members: seq<Member>, codec: Codec)
    requires !HasDouble(u) && forall i :: 0 <= i < |members| ==> Tidy(members[i].item)
    ensures ReducedMembers(u, members, codec) == members
    decreases u, 1, |members|
  {
    hide HasDouble, Reduced, Tidy;
    if members != [] {
      PlainIsReduced(u, members[0].item, codec);
      PlainMembers(u, members[1..], codec);
    }
  }

  // Structs

  /** A member of a described struct: its name, its type and the value it has before reading. */
  datatype FieldSpec = FieldSpec(name: bytes, kind: FieldType, initial: Field)

  /** The members of a C++ struct differ in name, but an annotation may rename one to the name of another. */
  predicate DistinctNames(shape: seq<FieldSpec>) {
    forall i, j :: 0 <= i < j < |shape| ==> shape[i].name != shape[j].name
  }

  predicate IsOf(shape: seq<FieldSpec>, values: seq<Field>) {
    |values| == |shape| && forall i :: 0 <= i < |shape| ==> HasType(shape[i].kind, values[i])
  }

  /** Sets each field in turn, a later field of a name replacing an earlier one. */
  function SetFields(before: seq<Member>, shape: seq<FieldSpec>, values: seq<Field>): seq<Member>
    requires IsOf(shape, values)
    decreases |shape|
  {
    if shape == [] then before
    else SetFields(SetMember(before, shape[0].name, ToJson(shape[0].kind, values[0])), shape[1..], values[1..])
  }

  function ToJsonValue(shape: seq<FieldSpec>, values: seq<Field>): Json
    requires IsOf(shape, values)
  {
    Object(SetFields([], shape, values))
  }

  function FieldFrom(spec: FieldSpec, document: Json, codec: Codec): Result<Field> {
    var member := Find(document, spec.name);
    if member.None? then Ok(spec.initial) else FromJson(spec.kind, member.value, codec)
  }

  function FieldsFrom(shape: seq<FieldSpec>, document: Json, codec: Codec): Result<seq<Field>> {
    if shape == [] then Ok([]) else
    var first :- FieldFrom(shape[0], document, codec);
    var rest :- FieldsFrom(shape[1..], document, codec);
    Ok([first] + rest)
  }

  function FromJsonValue(shape: seq<FieldSpec>, document: Json, codec: Codec): Result<seq<Field>> {
    if !document.Object? then Err(TypeMismatch) else FieldsFrom(shape, document, codec)
  }

  lemma {:induction false} IndexOfFirst(members: seq<Member>, key: bytes, i: nat)
    requires i <= |members| && (i < |members| ==> members[i].key == key)
    requires forall j :: 0 <= j < i ==> members[j].key != key
    ensures IndexOf(members, key) == i
  {
    if i > 0 {
      IndexOfFirst(members[1..], key, i - 1);
    }
  }

  lemma FindAfterSet(members: seq<Member>, key: bytes, item: Json, other: bytes)
    ensures Find(Object(SetMember(members, key, item)), other)
            == if other == key then Some(item) else Find(Object(members), other)
  {
    var after, at := SetMember(members, key, item), IndexOf(members, key);
    if other == key {
      IndexOfFirst(after, key, at);
    } else {
      var i := IndexOf(members, other);
      if i == |members| {
        IndexOfFirst(after, other, |after|);
      } else {
        IndexOfFirst(after, other, i);
      }
    }
  }

  /** The last field of the name: what stands in the document for every field of the name. */
  predicate LastOfName(shape: seq<FieldSpec>, name: bytes, j: nat) {
    j < |shape| && shape[j].name == name && forall l :: j < l < |shape| ==> shape[l].name != name
  }

  lemma {:induction false} OtherNamesAreKept(before: seq<Member>, shape: seq<FieldSpec>, values: seq<Field>, name: bytes)
    requires IsOf(shape, values) && forall l :: 0 <= l < |shape| ==> shape[l].name != name
    ensures Find(Object(SetFields(before, shape, values)), name) == Find(Object(before), name)
    decreases |shape|
  {
    hide HasType, ToJson, SetMember, Find;
    if shape != [] {
      var item := ToJson(shape[0].kind, values[0]);
      FindAfterSet(before, shape[0].name, item, name);
      OtherNamesAreKept(SetMember(before, shape[0].name, item), shape[1..], values[1..], name);
    }
  }

  lemma {:induction false} LastIsFound(before: seq<Member>, shape: seq<FieldSpec>, values: seq<Field>, name: bytes, j: nat)
    requires IsOf(shape, values) && LastOfName(shape, name, j)
    ensures Find(Object(SetFields(before, shape, values)), name) == Some(ToJson(shape[j].kind, values[j]))
    decreases |shape|
  {
    hide HasType, ToJson, SetMember, Find;
    var item := ToJson(shape[0].kind, values[0]);
    var next := SetMember(before, shape[0].name, item);
    if j == 0 {
      FindAfterSet(before, name, item, name);
      OtherNamesAreKept(next, shape[1..], values[1..], name);
    } else {
      LastIsFound(next, shape[1..], values[1..], name, j - 1);
    }
  }

  lemma {:induction false} FieldsOfEach(shape: seq<FieldSpec>, document: Json, expected: seq<Field>, codec: Codec)
    requires |expected| == |shape|
    ensures FieldsFrom(shape, document, codec) == Ok(expected)
            <==> forall i :: 0 <= i < |shape| ==> FieldFrom(shape[i], document, codec) == Ok(expected[i])
  {
    hide FieldFrom;
    if shape != [] {
      FieldsOfEach(shape[1..], document, expected[1..], codec);
      var first, rest := FieldFrom(shape[0], document, codec), FieldsFrom(shape[1..], document, codec);
      assert [expected[0]] + expected[1..] == expected;
      if first.Ok? && rest.Ok? {
        assert ([first.value] + rest.value)[1..] == rest.value;
      }
      EachOrFirst(shape, document, expected, codec);
    }
  }

  lemma EachOrFirst(shape: seq<FieldSpec>, document: Json, expected: seq<Field>, codec: Codec)
    requires |expected| == |shape| && shape != []
    ensures (forall i :: 0 <= i < |shape| ==> FieldFrom(shape[i], document, codec) == Ok(expected[i]))
            <==> FieldFrom(shape[0], document, codec) == Ok(expected[0])
                 && forall i :: 0 <= i < |shape[1..]| ==> FieldFrom(shape[1..][i], document, codec) == Ok(expected[1..][i])
  {
    hide FieldFrom;
    if forall i :: 0 <= i < |shape| ==> FieldFrom(shape[i], document, codec) == Ok(expected[i]) {
      forall i | 0 <= i < |shape[1..]|
        ensures FieldFrom(shape[1..][i], document, codec) == Ok(expected[1..][i])
      {
        assert shape[1..][i] == shape[i + 1] && expected[1..][i] == expected[i + 1];
      }
    }
    if FieldFrom(shape[0], document, codec) == Ok(expected[0])
       && forall i :: 0 <= i < |shape[1..]| ==> FieldFrom(shape[1..][i], document, codec) == Ok(expected[1..][i]) {
      forall i | 0 <= i < |shape|
        ensures FieldFrom(shape[i], document, codec) == Ok(expected[i])
      {
        if i > 0 {
          assert shape[1..][i - 1] == shape[i] && expected[1..][i - 1] == expected[i];
        }
      }
    }
  }

  function LastNamed(shape: seq<FieldSpec>, i: nat): (j: nat)
    requires i < |shape|
    ensures i <= j && LastOfName(shape, shape[i].name, j)
  {
    LastBelow(shape, shape[i].name, i, |shape|)
  }

  function LastBelow(shape: seq<FieldSpec>, name: bytes, i: nat, n: nat): (j: nat)
    requires i < n <= |shape| && shape[i].name == name
    requires forall l :: n <= l < |shape| ==> shape[l].name != name
    ensures i <= j && LastOfName(shape, name, j)
  {
    if shape[n - 1].name == name then n - 1 else LastBelow(shape, name, i, n - 1)
  }

  /** Each field is read from what the last field of its name was written as. */
  lemma ReadFromLast(shape: seq<FieldSpec>, values: seq<Field>, codec: Codec)
    requires IsOf(shape, values)
    ensures FromJsonValue(shape, ToJsonValue(shape, values), codec) == Ok(values)
            <==> forall i :: 0 <= i < |shape| ==>
                   var j := LastNamed(shape, i);
                   FromJson(shape[i].kind, ToJson(shape[j].kind, values[j]), codec) == Ok(values[i])
  {
    hide HasType, FromJson, ToJson, SetFields, FieldsFrom, Find, LastNamed;
    var document := ToJsonValue(shape, values);
    forall i | 0 <= i < |shape|
      ensures var j := LastNamed(shape, i);
              FieldFrom(shape[i], document, codec) == FromJson(shape[i].kind, ToJson(shape[j].kind, values[j]), codec)
    {
      LastIsFound([], shape, values, shape[i].name, LastNamed(shape, i));
    }
    FieldsOfEach(shape, document, values, codec);
  }

  /** A described value is read back from its JSON exactly when each field holds no empty optional in another
      and says the same JSON as the last field of its name, up to integers that it reads as doubles. */
  lemma StructRoundTrip(shape: seq<FieldSpec>, values: seq<Field>, codec: Codec)
    requires IsOf(shape, values)
    ensures FromJsonValue(shape, ToJsonValue(shape, values), codec) == Ok(values)
            <==> forall i :: 0 <= i < |shape| ==> SaysTheLast(shape, values, i, codec)
  {
    hide HasType, NoEmptyHeld, FromJson, ToJson, Reduced, FromJsonValue, ToJsonValue, LastNamed;
    ReadFromLast(shape, values, codec);
    forall i | 0 <= i < |shape|
      ensures var j := LastNamed(shape, i);
              FromJson(shape[i].kind, ToJson(shape[j].kind, values[j]), codec) == Ok(values[i]) <==> SaysTheLast(shape, values, i, codec)
    {
      var j := LastNamed(shape, i);
      WrittenIsTidy(shape[j].kind, values[j]);
      ReadAsExactly(shape[i].kind, ToJson(shape[j].kind, values[j]), values[i], codec);
    }
  }

  predicate SaysTheLast(shape: seq<FieldSpec>, values: seq<Field>, i: nat, codec: Codec)
    requires IsOf(shape, values) && i < |shape|
  {
    var j := LastNamed(shape, i);
    && NoEmptyHeld(shape[i].kind, values[i])
    && ToJson(shape[i].kind, values[i]) == Reduced(shape[i].kind, ToJson(shape[j].kind, values[j]), codec)
  }

  /** Of a field without a double, that is the very same JSON. */
  lemma SaysTheSame(shape: seq<FieldSpec>, values: seq<Field>, i: nat, codec: Codec)
    requires IsOf(shape, values) && i < |shape| && !HasDouble(shape[i].kind)
    ensures var j := LastNamed(shape, i);
            SaysTheLast(shape, values, i, codec)
            <==> NoEmptyHeld(shape[i].kind, values[i]) && ToJson(shape[i].kind, values[i]) == ToJson(shape[j].kind, values[j])
  {
    hide HasType, NoEmptyHeld, HasDouble, ToJson, Reduced, LastNamed, Tidy;
    var j := LastNamed(shape, i);
    WrittenIsTidy(shape[j].kind, values[j]);
    PlainIsReduced(shape[i].kind, ToJson(shape[j].kind, values[j]), codec);
  }

  /** Where no two fields share a name, that is exactly when no optional in any field holds an empty one. */
  lemma DistinctStructRoundTrip(shape: seq<FieldSpec>, values: seq<Field>, codec: Codec)
    requires IsOf(shape, values) && DistinctNames(shape)
    ensures FromJsonValue(shape, ToJsonValue(shape, values), codec) == Ok(values)
            <==> forall i :: 0 <= i < |shape| ==> NoEmptyHeld(shape[i].kind, values[i])
  {
    hide HasType, NoEmptyHeld, FromJson, ToJson, FromJsonValue, ToJsonValue;
    ReadFromLast(shape, values, codec);
    forall i | 0 <= i < |shape|
      ensures LastNamed(shape, i) == i
      ensures FromJson(shape[i].kind, ToJson(shape[i].kind, values[i]), codec) == Ok(values[i]) <==> NoEmptyHeld(shape[i].kind, values[i])
    {
      FieldRoundTrip(shape[i].kind, values[i], codec);
    }
  }

  /** Two int64 fields renamed to one name: the first comes back as the second. */
  lemma SharedNameIsLost(name: bytes, codec: Codec)
    ensures var spec := FieldSpec(name, Int64Type, IntField(0));
            FromJsonValue([spec, spec], ToJsonValue([spec, spec], [IntField(1), IntField(2)]), codec) != Ok([IntField(1), IntField(2)])
  {
    hide FromJsonValue, ToJsonValue;
    var shape := [FieldSpec(name, Int64Type, IntField(0)), FieldSpec(name, Int64Type, IntField(0))];
    ReadFromLast(shape, [IntField(1), IntField(2)], codec);
    assert LastNamed(shape, 0) == 1;
  }

  // The loops of the source

  method WriteField(t: FieldType, f: Field) returns (r: Json)
    requires HasType(t, f)
    ensures r == ToJson(t, f)
    decreases t, 0
  {
    hide EntriesToJson, Order.Sorted, SetMember;
    match t
    case BoolType => r := Boolean(f.b);
    case Int32Type => r := Number(f.i);
    case Int64Type => r := Number(f.i);
    case DoubleType => r := Floating(f.d);
    case StringType => r := Str(f.text);
    case OptionalOf(u) =>
      if f.held.Some? {
        r := WriteField(u, f.held.value);
      } else {
        r := Null;
      }
    case VectorOf(u) => r := WriteVector(u, f.elements);
    case MapOf(u) => r := WriteMap(u, f.entries);
  }

  method WriteVector(u: FieldType, elements: seq<Field>) returns (r: Json)
    requires forall i :: 0 <= i < |elements| ==> HasType(u, elements[i])
    ensures r == Array(ElementsToJson(u, elements))
    decreases u, 1
  {
    hide ToJson, HasType, ElementsToJson;
    var out: seq<Json> := [];
    assert elements[0..] == elements;
    for i := 0 to |elements|
      invariant out + ElementsToJson(u, elements[i..]) == ElementsToJson(u, elements)
    {
      var element := WriteField(u, elements[i]);
      ElementsUnfold(u, elements[i..], out);
      assert elements[i..][1..] == elements[i + 1..];
      out := out + [element];
    }
    ElementsUnfold(u, elements[|elements|..], out);
    r := Array(out);
  }

  lemma ElementsUnfold(u: FieldType, elements: seq<Field>, before: seq<Json>)
    requires forall i :: 0 <= i < |elements| ==> HasType(u, elements[i])
    ensures before + ElementsToJson(u, elements)
            == if elements == [] then before
               else before + [ToJson(u, elements[0])] + ElementsToJson(u, elements[1..])
  {
    hide ToJson, HasType;
  }

  method WriteMap(u: FieldType, entries: map<bytes, Field>) returns (r: Json)
    requires forall k :: k in entries ==> HasType(u, entries[k])
    ensures r == Object(EntriesToJson(u, Order.Sorted(entries.Keys), entries))
    decreases u, 1
  {
    hide ToJson, HasType, Order.Sorted, Order.LessEq, SetMember, EntriesToJson;
    var keys := Order.Sorted(entries.Keys);
    Order.SortedAscends(entries.Keys);
    assert keys[0..] == keys;
    var members: seq<Member> := [];
    for i := 0 to |keys|
      invariant |members| == i && forall j :: 0 <= j < i ==> members[j].key == keys[j]
      invariant EntriesToJson(u, keys, entries) == members + EntriesToJson(u, keys[i..], entries)
    {
      var key := keys[i];
      var item := WriteField(u, entries[key]);
      EntriesStep(u, keys[i..], entries, members);
      assert keys[i..][0] == key && keys[i..][1..] == keys[i + 1..];
      SetNew(members, key, item);
      members := SetMember(members, key, item);
    }
    NoEntries(u, keys, entries);
    assert EntriesToJson(u, keys, entries) == members;
    r := Object(members);
  }

  lemma NoEntries(u: FieldType, keys: seq<bytes>, entries: map<bytes, Field>)
    requires forall k :: k in keys ==> k in entries && HasType(u, entries[k])
    ensures EntriesToJson(u, keys[|keys|..], entries) == []
  {
  }

  lemma EntriesStep(u: FieldType, keys: seq<bytes>, entries: map<bytes, Field>, before: seq<Member>)
    requires keys != [] && forall k :: k in keys ==> k in entries && HasType(u, entries[k])
    ensures before + EntriesToJson(u, keys, entries)
            == before + [Member(keys[0], ToJson(u, entries[keys[0]]))] + EntriesToJson(u, keys[1..], entries)
  {
    hide ToJson, HasType;
  }

  method ReadField(t: FieldType, held: Json, codec: Codec) returns (r: Result<Field>)
    ensures r == FromJson(t, held, codec)
    decreases t, 0
  {
    match t
    case OptionalOf(u) =>
      if held.Null? {
        return Ok(EMPTY);
      }
      var inner := ReadField(u, held, codec);
      r := if inner.Err? then inner else Ok(OptionalField(Some(inner.value)));
    case VectorOf(u) => r := ReadVector(u, held, codec);
    case MapOf(u) => r := ReadMap(u, held, codec);
    case _ => r := ScalarFromJson(t, held, codec);
  }

  method ReadVector(u: FieldType, held: Json, codec: Codec) returns (r: Result<Field>)
    ensures r == FromJson(VectorOf(u), held, codec)
    decreases u, 1
  {
    hide EntriesFromJson, ScalarFromJson, ElementsFromJson;
    if !held.Array? {
      return Err(TypeMismatch);
    }
    var out: seq<Field> := [];
    var elements := held.elements;
    assert elements[0..] == elements;
    NothingPrefixed(ElementsFromJson(u, elements, codec));
    var i := 0;
    while i < |elements|
      invariant 0 <= i <= |elements|
      invariant ElementsFromJson(u, elements, codec) == Prefixed(out, ElementsFromJson(u, elements[i..], codec))
    {
      var inner := ReadField(u, elements[i], codec);
      assert elements[i..][0] == elements[i] && elements[i..][1..] == elements[i + 1..];
      ElementsStep(u, elements[i..], out, codec);
      if inner.Err? {
        return inner;
      }
      out := out + [inner.value];
      i := i + 1;
    }
    NoElements(u, elements, codec);
    assert out + [] == out;
    r := Ok(VectorField(out));
  }

  ghost function Prefixed(out: seq<Field>, rest: Result<seq<Field>>): Result<seq<Field>> {
    if rest.Ok? then Ok(out + rest.value) else rest
  }

  lemma NothingPrefixed(rest: Result<seq<Field>>)
    ensures Prefixed([], rest) == rest
  {
    if rest.Ok? {
      assert [] + rest.value == rest.value;
    }
  }

  lemma NoElements(u: FieldType, elements: seq<Json>, codec: Codec)
    ensures ElementsFromJson(u, elements[|elements|..], codec) == Ok([])
  {
  }

  lemma ElementsStep(u: FieldType, elements: seq<Json>, out: seq<Field>, codec: Codec)
    requires elements != []
    ensures var first := FromJson(u, elements[0], codec);
            Prefixed(out, ElementsFromJson(u, elements, codec))
            == if first.Err? then Err(first.error) else Prefixed(out + [first.value], ElementsFromJson(u, elements[1..], codec))
  {
    hide FromJson;
    var first, rest := FromJson(u, elements[0], codec), ElementsFromJson(u, elements[1..], codec);
    if first.Ok? && rest.Ok? {
      assert out + ([first.value] + rest.value) == out + [first.value] + rest.value;
    }
  }

  method ReadMap(u: FieldType, held: Json, codec: Codec) returns (r: Result<Field>)
    ensures r == FromJson(MapOf(u), held, codec)
    decreases u, 1
  {
    if !held.Object? {
      return Err(TypeMismatch);
    }
    var out: map<bytes, Field> := map[];
    var members := held.members;
    assert members[0..] == members;
    var i := 0;
    while i < |members|
      invariant 0 <= i <= |members|
      invariant EntriesFromJson(u, members, map[], codec) == EntriesFromJson(u, members[i..], out, codec)
    {
      var inner := ReadField(u, members[i].item, codec);
      assert members[i..][0] == members[i] && members[i..][1..] == members[i + 1..];
      if inner.Err? {
        return inner;
      }
      out := out[members[i].key := inner.value];
      i := i + 1;
    }
    r := Ok(MapField(out));
  }

  /** `to_json_value`. */
  method WriteStruct(shape: seq<FieldSpec>, values: seq<Field>) returns (r: Json)
    requires IsOf(shape, values)
    ensures r == ToJsonValue(shape, values)
  {
    hide ToJson, HasType, SetMember, SetFields;
    var members: seq<Member> := [];
    assert shape[0..] == shape && values[0..] == values;
    for i := 0 to |shape|
      invariant SetFields(members, shape[i..], values[i..]) == SetFields([], shape, values)
    {
      var item := WriteField(shape[i].kind, values[i]);
      FieldsUnfold(members, shape[i..], values[i..]);
      assert shape[i..][1..] == shape[i + 1..] && values[i..][1..] == values[i + 1..];
      members := SetMember(members, shape[i].name, item);
    }
    FieldsUnfold(members, shape[|shape|..], values[|shape|..]);
    r := Object(members);
  }

  lemma FieldsUnfold(before: seq<Member>, shape: seq<FieldSpec>, values: seq<Field>)
    requires IsOf(shape, values)
    ensures SetFields(before, shape, values)
            == if shape == [] then before
               else SetFields(SetMember(before, shape[0].name, ToJson(shape[0].kind, values[0])), shape[1..], values[1..])
  {
    hide ToJson, HasType, SetMember;
  }

  /** `from_json_value`: the first field that fails decides the error, and no later field is read. */
  method ReadStruct(shape: seq<FieldSpec>, document: Json, codec: Codec) returns (r: Result<seq<Field>>)
    ensures r == FromJsonValue(shape, document, codec)
  {
    hide FromJson, Find;
    if !document.Object? {
      return Err(TypeMismatch);
    }
    var out: seq<Field> := [];
    assert shape[0..] == shape;
    NothingPrefixed(FieldsFrom(shape, document, codec));
    var i := 0;
    while i < |shape|
      invariant 0 <= i <= |shape|
      invariant FieldsFrom(shape, document, codec) == Prefixed(out, FieldsFrom(shape[i..], document, codec))
    {
      var member := Find(document, shape[i].name);
      var field := Ok(shape[i].initial);
      if member.Some? {
        field := ReadField(shape[i].kind, member.value, codec);
      }
      assert shape[i..][0] == shape[i] && shape[i..][1..] == shape[i + 1..];
      FieldsStep(shape[i..], document, out, codec);
      if field.Err? {
        return Err(field.error);
      }
      out := out + [field.value];
      i := i + 1;
    }
    assert out + [] == out;
    r := Ok(out);
  }

  lemma FieldsStep(shape: seq<FieldSpec>, document: Json, out: seq<Field>, codec: Codec)
    requires shape != []
    ensures var first := FieldFrom(shape[0], document, codec);
            Prefixed(out, FieldsFrom(shape, document, codec))
            == if first.Err? then Err(first.error) else Prefixed(out + [first.value], FieldsFrom(shape[1..], document, codec))
  {
    hide FieldFrom;
    var first, rest := FieldFrom(shape[0], document, codec), FieldsFrom(shape[1..], document, codec);
    if first.Ok? && rest.Ok? {
      assert out + ([first.value] + rest.value) == out + [first.value] + rest.value;
    }
  }
}
