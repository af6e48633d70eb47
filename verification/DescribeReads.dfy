/** What any document is read as by a described type, whoever wrote it: which documents are accepted, what
    a field holds afterwards, and which error a refusal carries
    (include/cloudevents/format/describe_json.hpp). */
module DescribeReads {
  import opened Wrappers
  import opened JsonDom
  import opened DescribeJson

  // One field

  /** The JSON a type can be read from. */
  predicate Fits(t: FieldType, held: Json) {
    match t
    case BoolType => held.Boolean?
    case Int32Type => held.Number? && -2_147_483_648 <= held.i <= 2_147_483_647
    case Int64Type => held.Number?
    case DoubleType => held.Number? || held.Floating?
    case StringType => held.Str?
    case OptionalOf(u) => held.Null? || Fits(u, held)
    case VectorOf(u) => held.Array? && forall i :: 0 <= i < |held.elements| ==> Fits(u, held.elements[i])
    case MapOf(u) => held.Object? && forall i :: 0 <= i < |held.members| ==> Fits(u, held.members[i].item)
  }

  /** Why the JSON does not fit: the first part that does not decides. */
  ghost predicate RefusedAs(t: FieldType, held: Json, e: Errc) {
    match t
    case Int32Type => e == if held.Number? then OutOfRange else TypeMismatch
    case OptionalOf(u) => RefusedAs(u, held, e)
    case VectorOf(u) =>
      if !held.Array? then e == TypeMismatch
      else exists i :: 0 <= i < |held.elements| && FirstMisfit(u, held.elements, i) && RefusedAs(u, held.elements[i], e)
    case MapOf(u) =>
      if !held.Object? then e == TypeMismatch
      else exists i :: 0 <= i < |held.members| && FirstMisfit(u, Items(held.members), i) && RefusedAs(u, held.members[i].item, e)
    case _ => e == TypeMismatch
  }

  function Items(members: seq<Member>): (items: seq<Json>)
    ensures |items| == |members|
  {
    seq(|members|, i requires 0 <= i < |members| => members[i].item)
  }

  predicate FirstMisfit(u: FieldType, items: seq<Json>, i: nat) {
    i < |items| && !Fits(u, items[i]) && forall j :: 0 <= j < i ==> Fits(u, items[j])
  }

  /** A document is read at a type exactly when it fits the type, and is refused for the reason it does not. */
  lemma {:induction false} AcceptedExactly(t: FieldType, held: Json, codec: Codec)
    ensures FromJson(t, held, codec).Ok? <==> Fits(t, held)
    ensures FromJson(t, held, codec).Err? ==> RefusedAs(t, held, FromJson(t, held, codec).error)
    decreases t, 0, 0
  {
    match t
    case OptionalOf(u) => AcceptedExactly(u, held, codec);
    case VectorOf(u) =>
      if held.Array? {
        ElementsExactly(u, held.elements, codec);
      }
    case MapOf(u) =>
      if held.Object? {
        EntriesExactly(u, held.members, map[], codec);
      }
    case _ =>
  }

  lemma {:induction false} ElementsExactly(u: FieldType, elements: seq<Json>, codec: Codec)
    ensures var r := ElementsFromJson(u, elements, codec);
            && (r.Ok? <==> forall i :: 0 <= i < |elements| ==> Fits(u, elements[i]))
            && (r.Err? ==> exists i :: 0 <= i < |elements| && FirstMisfit(u, elements, i) && RefusedAs(u, elements[i], r.error))
    decreases u, 1, |elements|
  {
    hide FromJson, Fits, RefusedAs;
    if elements != [] {
      AcceptedExactly(u, elements[0], codec);
      ElementsExactly(u, elements[1..], codec);
      var r := ElementsFromJson(u, elements, codec);
      if !Fits(u, elements[0]) {
        assert FirstMisfit(u, elements, 0);
      } else if r.Err? {
        var i :| 0 <= i < |elements[1..]| && FirstMisfit(u, elements[1..], i) && RefusedAs(u, elements[1..][i], r.error);
        OneFurther(u, elements, i);
      }
      FitsAll(u, elements);
    }
  }

  lemma OneFurther(u: FieldType, items: seq<Json>, i: nat)
    requires items != [] && Fits(u, items[0]) && FirstMisfit(u, items[1..], i)
    ensures FirstMisfit(u, items, i + 1) && items[1..][i] == items[i + 1]
  {
    hide Fits;
    forall j | 0 <= j < i + 1
      ensures Fits(u, items[j])
    {
      if j > 0 {
        assert items[1..][j - 1] == items[j];
      }
    }
  }

  lemma FitsAll(u: FieldType, items: seq<Json>)
    requires items != []
    ensures (forall i :: 0 <= i < |items| ==> Fits(u, items[i]))
            <==> Fits(u, items[0]) && forall i :: 0 <= i < |items[1..]| ==> Fits(u, items[1..][i])
  {
    hide Fits;
    if Fits(u, items[0]) && forall i :: 0 <= i < |items[1..]| ==> Fits(u, items[1..][i]) {
      forall i | 0 <= i < |items|
        ensures Fits(u, items[i])
      {
        if i > 0 {
          assert items[1..][i - 1] == items[i];
        }
      }
    }
  }

  lemma {:induction false} EntriesExactly(u: FieldType, members: seq<Member>, before: map<bytes, Field>, codec: Codec)
    ensures var r := EntriesFromJson(u, members, before, codec);
            && (r.Ok? <==> forall i :: 0 <= i < |members| ==> Fits(u, members[i].item))
            && (r.Err? ==> exists i :: 0 <= i < |members| && FirstMisfit(u, Items(members), i) && RefusedAs(u, members[i].item, r.error))
    decreases u, 1, |members|
  {
    hide FromJson, Fits, RefusedAs;
    if members != [] {
      AcceptedExactly(u, members[0].item, codec);
      var items, first := Items(members), FromJson(u, members[0].item, codec);
      var r := EntriesFromJson(u, members, before, codec);
      assert items[1..] == Items(members[1..]);
      if first.Err? {
        assert FirstMisfit(u, items, 0);
      } else {
        EntriesExactly(u, members[1..], before[members[0].key := first.value], codec);
        if r.Err? {
          var i :| 0 <= i < |members[1..]| && FirstMisfit(u, Items(members[1..]), i) && RefusedAs(u, members[1..][i].item, r.error);
          OneFurther(u, items, i);
        }
      }
      FitsAll(u, items);
      ItemsFit(u, members);
      ItemsFit(u, members[1..]);
    }
  }

  lemma ItemsFit(u: FieldType, members: seq<Member>)
    ensures (forall i :: 0 <= i < |members| ==> Fits(u, members[i].item))
            <==> forall i :: 0 <= i < |Items(members)| ==> Fits(u, Items(members)[i])
  {
    hide Fits;
    forall i | 0 <= i < |members|
      ensures Items(members)[i] == members[i].item
    {
    }
  }

  // A whole struct

  /** No member of the document has the name. */
  predicate Absent(document: Json, name: bytes) {
    document.Object? && forall k :: 0 <= k < |document.members| ==> document.members[k].key != name
  }

  /** The member at k is the first of the name. */
  predicate FirstNamed(document: Json, name: bytes, k: nat) {
    && document.Object? && k < |document.members| && document.members[k].key == name
    && forall l :: 0 <= l < k ==> document.members[l].key != name
  }

  /** A field finds its member, if it has one, in a form it cannot be read from. */
  ghost predicate FieldRefused(spec: FieldSpec, document: Json, e: Errc) {
    exists k: nat :: FirstNamed(document, spec.name, k)
                && !Fits(spec.kind, document.members[k].item) && RefusedAs(spec.kind, document.members[k].item, e)
  }

  ghost predicate FieldAccepted(spec: FieldSpec, document: Json) {
    forall k: nat :: FirstNamed(document, spec.name, k) ==> Fits(spec.kind, document.members[k].item)
  }

  /** A document is read as a struct exactly when it is an object and, of every field, the first member of
      its name, if there is one, fits the field's type. The field that comes first decides the error. */
  lemma {:induction false} StructAcceptedExactly(shape: seq<FieldSpec>, document: Json, codec: Codec)
    ensures var r := FromJsonValue(shape, document, codec);
            && (r.Ok? <==> document.Object? && forall i :: 0 <= i < |shape| ==> FieldAccepted(shape[i], document))
            && (r.Err? ==> if !document.Object? then r.error == TypeMismatch
                           else exists i: nat :: FirstRefused(shape, document, i, r.error))
  {
    hide Fits, RefusedAs, FieldAccepted, FieldRefused, FieldsFrom;
    if document.Object? {
      FieldsExactly(shape, document, codec);
    }
  }

  ghost predicate FirstRefused(shape: seq<FieldSpec>, document: Json, i: nat, e: Errc) {
    i < |shape| && FieldRefused(shape[i], document, e) && forall j :: 0 <= j < i ==> FieldAccepted(shape[j], document)
  }

  lemma MemberFound(document: Json, name: bytes)
    requires document.Object?
    ensures Find(document, name).None? <==> Absent(document, name)
    ensures forall k: nat :: FirstNamed(document, name, k) ==> Find(document, name) == Some(document.members[k].item)
    ensures Find(document, name).Some? ==> FirstNamed(document, name, IndexOf(document.members, name))
  {
    forall k: nat | FirstNamed(document, name, k)
      ensures IndexOf(document.members, name) == k
    {
      IndexOfFirst(document.members, name, k);
    }
  }

  lemma OneField(spec: FieldSpec, document: Json, codec: Codec)
    requires document.Object?
    ensures var r := FieldFrom(spec, document, codec);
            && (r.Ok? <==> FieldAccepted(spec, document)) && (r.Err? ==> FieldRefused(spec, document, r.error))
            && (Absent(document, spec.name) ==> r == Ok(spec.initial))
            && forall k: nat :: FirstNamed(document, spec.name, k) ==> r == FromJson(spec.kind, document.members[k].item, codec)
  {
    hide Fits, RefusedAs, FromJson, FirstNamed, Absent, Find;
    MemberFound(document, spec.name);
    var member := Find(document, spec.name);
    if member.Some? {
      AcceptedExactly(spec.kind, member.value, codec);
      var k := IndexOf(document.members, spec.name);
      assert FirstNamed(document, spec.name, k) && document.members[k].item == member.value;
    } else {
      forall k: nat
        ensures !FirstNamed(document, spec.name, k)
      {
        NotBoth(document, spec.name, k);
      }
    }
  }

  lemma NotBoth(document: Json, name: bytes, k: nat)
    requires Absent(document, name)
    ensures !FirstNamed(document, name, k)
  {
  }

  lemma {:induction false} FieldsExactly(shape: seq<FieldSpec>, document: Json, codec: Codec)
    requires document.Object?
    ensures var r := FieldsFrom(shape, document, codec);
            && (r.Ok? <==> forall i :: 0 <= i < |shape| ==> FieldAccepted(shape[i], document))
            && (r.Err? ==> exists i: nat :: FirstRefused(shape, document, i, r.error))
    decreases |shape|
  {
    hide FieldAccepted, FieldRefused, FieldFrom;
    if shape != [] {
      var r := FieldsFrom(shape, document, codec);
      OneField(shape[0], document, codec);
      FieldsExactly(shape[1..], document, codec);
      if !FieldAccepted(shape[0], document) {
        assert FirstRefused(shape, document, 0, r.error);
      } else if r.Err? {
        var i: nat :| FirstRefused(shape[1..], document, i, r.error);
        forall j | 0 <= j < i + 1
          ensures FieldAccepted(shape[j], document)
        {
          if j > 0 {
            assert shape[1..][j - 1] == shape[j];
          }
        }
        assert FirstRefused(shape, document, i + 1, r.error);
      } else {
        forall j | 0 <= j < |shape|
          ensures FieldAccepted(shape[j], document)
        {
          if j > 0 {
            assert shape[1..][j - 1] == shape[j];
          }
        }
      }
      assert forall j :: 0 < j < |shape| ==> shape[j] == shape[1..][j - 1];
    }
  }

  /** What an accepted document gives: a field that no member names keeps its initial value, and every other
      field is read from the first member of its name. */
  lemma {:induction false} StructHolds(shape: seq<FieldSpec>, document: Json, codec: Codec)
    requires FromJsonValue(shape, document, codec).Ok?
    ensures var values := FromJsonValue(shape, document, codec).value;
            && |values| == |shape|
            && (forall i :: 0 <= i < |shape| && Absent(document, shape[i].name) ==> values[i] == shape[i].initial)
            && (forall i, k: nat :: 0 <= i < |shape| && FirstNamed(document, shape[i].name, k)
                  ==> FromJson(shape[i].kind, document.members[k].item, codec) == Ok(values[i]))
  {
    hide FieldsFrom, FieldFrom, FromJson, Absent, FirstNamed, FieldAccepted, FieldRefused;
    var values := FromJsonValue(shape, document, codec).value;
    FieldsHold(shape, document, codec);
    forall i | 0 <= i < |shape| {
      OneField(shape[i], document, codec);
    }
  }

  lemma {:induction false} FieldsHold(shape: seq<FieldSpec>, document: Json, codec: Codec)
    requires FieldsFrom(shape, document, codec).Ok?
    ensures var values := FieldsFrom(shape, document, codec).value;
            |values| == |shape| && forall i :: 0 <= i < |shape| ==> FieldFrom(shape[i], document, codec) == Ok(values[i])
    decreases |shape|
  {
    hide FieldFrom;
    if shape != [] {
      FieldsHold(shape[1..], document, codec);
      var rest := FieldsFrom(shape[1..], document, codec).value;
      var values := FieldsFrom(shape, document, codec).value;
      forall i | 0 <= i < |shape|
        ensures FieldFrom(shape[i], document, codec) == Ok(values[i])
      {
        if i > 0 {
          assert shape[1..][i - 1] == shape[i] && values[i] == rest[i - 1];
        }
      }
    }
  }

  function Joined(a: Result<seq<Field>>, b: Result<seq<Field>>): Result<seq<Field>> {
    if a.Err? then a else if b.Err? then b else Ok(a.value + b.value)
  }

  lemma {:induction false} FieldsSplit(a: seq<FieldSpec>, b: seq<FieldSpec>, document: Json, codec: Codec)
    ensures FieldsFrom(a + b, document, codec) == Joined(FieldsFrom(a, document, codec), FieldsFrom(b, document, codec))
    decreases |a|
  {
    hide FieldFrom;
    if a == [] {
      assert a + b == b;
      var r := FieldsFrom(b, document, codec);
      assert r.Ok? ==> [] + r.value == r.value;
    } else {
      assert (a + b)[1..] == a[1..] + b;
      FieldsSplit(a[1..], b, document, codec);
      var first, rest, later := FieldFrom(a[0], document, codec), FieldsFrom(a[1..], document, codec), FieldsFrom(b, document, codec);
      if first.Ok? && rest.Ok? && later.Ok? {
        assert [first.value] + (rest.value + later.value) == [first.value] + rest.value + later.value;
      }
    }
  }

  lemma OneFieldAlone(spec: FieldSpec, document: Json, codec: Codec)
    requires document.Object? && Absent(document, spec.name)
    ensures FieldsFrom([spec], document, codec) == Ok([spec.initial])
  {
    hide Absent, FieldFrom, FieldAccepted, FieldRefused, FirstNamed;
    OneField(spec, document, codec);
    assert [spec][1..] == [] && FieldsFrom([], document, codec) == Ok([]);
    assert [spec.initial] + [] == [spec.initial];
  }

  /** A field that no member names can be put anywhere into the struct: documents are accepted as before,
      refused with the error as before, and the other fields hold what they held. */
  lemma AbsentFieldChangesNothing(before: seq<FieldSpec>, spec: FieldSpec, after: seq<FieldSpec>, document: Json, codec: Codec)
    requires document.Object? && Absent(document, spec.name)
    ensures var r, s := FromJsonValue(before + [spec] + after, document, codec), FromJsonValue(before + after, document, codec);
            if s.Err? then r == s
            else |s.value| == |before| + |after|
                 && r == Ok(s.value[..|before|] + [spec.initial] + s.value[|before|..])
  {
    hide FieldsFrom, Absent;
    FieldsSplit(before + [spec], after, document, codec);
    FieldsSplit(before, [spec], document, codec);
    FieldsSplit(before, after, document, codec);
    OneFieldAlone(spec, document, codec);
    var a, b := FieldsFrom(before, document, codec), FieldsFrom(after, document, codec);
    if a.Ok? && b.Ok? {
      FieldsHold(before, document, codec);
      FieldsHold(after, document, codec);
      InsertedAt(a.value, b.value, spec.initial);
    }
  }

  lemma InsertedAt(a: seq<Field>, b: seq<Field>, initial: Field)
    ensures (a + b)[..|a|] + [initial] + (a + b)[|a|..] == a + [initial] + b
  {
  }
}
