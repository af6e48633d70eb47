/** The order of header fields decides nothing: the attributes read from a list and from any permutation
    of it are the same, and a list that names a field twice is always refused. */
module BindingOrder {
  import opened Wrappers
  import opened Attributes
  import opened Headers
  import opened Bindings

  function FieldChange(b: Binding, h: Header): Result<Change> {
    if !CarriesPrefix(b, h.name) then Ok(Unchanged) else
    var value :- DecodeValue(b, h.value);
    ChangeOf(b, AttributeNameOf(b, h.name), value)
  }

  lemma ReadFieldIsChange(b: Binding, x: Builder, h: Header)
    ensures ReadField(b, x, h)
            == if FieldChange(b, h).Err? then Err(FieldChange(b, h).error) else Ok(Changed(x, FieldChange(b, h).value))
  {
    hide ChangeOf, DecodeValue, CarriesPrefix;
  }

  /** Two changes that touch different parts of the event. */
  predicate Apart(c: Change, d: Change) {
    match (c, d)
    case (Unchanged, _) => true
    case (_, Unchanged) => true
    case (SetId(_), SetId(_)) => false
    case (SetSource(_), SetSource(_)) => false
    case (SetKind(_), SetKind(_)) => false
    case (SetMediaType(_), SetMediaType(_)) => false
    case (SetSchema(_), SetSchema(_)) => false
    case (SetSubject(_), SetSubject(_)) => false
    case (SetTime(_), SetTime(_)) => false
    case (SetExtension(n, _), SetExtension(m, _)) => n != m
    case _ => true
  }

  lemma ApartCommute(x: Builder, c: Change, d: Change)
    requires Apart(c, d)
    ensures Changed(Changed(x, c), d) == Changed(Changed(x, d), c)
  {
    if c.SetExtension? && d.SetExtension? {
      Swapped(x.rest.extensions, c.name, c.value, d.name, d.value);
    }
  }

  lemma Swapped(e: map<bytes, AttributeValue>, n: bytes, v: AttributeValue, m: bytes, w: AttributeValue)
    requires n != m
    ensures (e[n := v])[m := w] == (e[m := w])[n := v]
  {
  }

  /** The name a change is made under. */
  predicate MadeUnder(c: Change, attribute: bytes) {
    match c
    case Unchanged => true
    case SetId(_) => attribute == NameOf(Id)
    case SetSource(_) => attribute == NameOf(Source)
    case SetKind(_) => attribute == NameOf(Type)
    case SetMediaType(_) => attribute == NameOf(DataContentType)
    case SetSchema(_) => attribute == NameOf(DataSchema)
    case SetSubject(_) => attribute == NameOf(Subject)
    case SetTime(_) => attribute == NameOf(Time)
    case SetExtension(name, _) => attribute == name
  }

  lemma ChangeIsMadeUnder(b: Binding, attribute: bytes, value: bytes)
    requires ChangeOf(b, attribute, value).Ok?
    ensures MadeUnder(ChangeOf(b, attribute, value).value, attribute)
  {
    hide NameOf, ReservedAs, Timestamp.Parse, CheckText, Subtype, ValidName;
    NameOfReserved(attribute);
  }

  lemma OtherNamesAreApart(c: Change, d: Change, n: bytes, m: bytes)
    requires MadeUnder(c, n) && MadeUnder(d, m) && n != m
    ensures Apart(c, d)
  {
    hide NameOf;
  }

  /** Fields with different names under the binding's rule give different attributes. */
  lemma NamesAreTold(b: Binding, n: bytes, m: bytes)
    requires CarriesPrefix(b, n) && CarriesPrefix(b, m) && AttributeNameOf(b, n) == AttributeNameOf(b, m)
    ensures Same(b.Rule(), n, m)
  {
    hide Lower;
    var k := |b.Prefix()|;
    if b.Rule().CaseSensitive? {
      assert n == n[..k] + n[k..] && m == m[..k] + m[k..];
    } else {
      LowersAgree(n, m, b.Prefix());
    }
  }

  lemma LowersAgree(n: bytes, m: bytes, prefix: bytes)
    requires StartsWithIgnoringCase(n, prefix) && StartsWithIgnoringCase(m, prefix)
    requires LowerAll(n[|prefix|..]) == LowerAll(m[|prefix|..])
    ensures EqualIgnoringCase(n, m)
  {
    hide Lower;
    var k := |prefix|;
    assert |LowerAll(n[k..])| == |LowerAll(m[k..])|;
    forall i | 0 <= i < |n|
      ensures Lower(n[i]) == Lower(m[i])
    {
      if i < k {
        assert n[..k][i] == n[i] && m[..k][i] == m[i];
      } else {
        assert LowerAll(n[k..])[i - k] == Lower(n[i]) && LowerAll(m[k..])[i - k] == Lower(m[i]);
      }
    }
  }

  lemma FieldsAreApart(b: Binding, h: Header, g: Header)
    requires !Same(b.Rule(), h.name, g.name) && FieldChange(b, h).Ok? && FieldChange(b, g).Ok?
    ensures Apart(FieldChange(b, h).value, FieldChange(b, g).value)
  {
    hide Same, DecodeValue, ChangeOf, AttributeNameOf, MadeUnder, EqualIgnoringCase;
    if CarriesPrefix(b, h.name) && CarriesPrefix(b, g.name) {
      var n, m := AttributeNameOf(b, h.name), AttributeNameOf(b, g.name);
      ChangeIsMadeUnder(b, n, DecodeValue(b, h.value).value);
      ChangeIsMadeUnder(b, m, DecodeValue(b, g.value).value);
      if n == m {
        NamesAreTold(b, h.name, g.name);
      }
      OtherNamesAreApart(FieldChange(b, h).value, FieldChange(b, g).value, n, m);
    }
  }

  ghost predicate AllRead(b: Binding, entries: seq<Header>) {
    forall h :: h in entries ==> FieldChange(b, h).Ok?
  }

  /** Whether the fields are accepted depends on each field alone. */
  lemma {:induction false} AcceptedOneByOne(b: Binding, x: Builder, entries: seq<Header>)
    ensures ReadFields(b, x, entries).Ok? <==> AllRead(b, entries)
    decreases |entries|
  {
    hide FieldChange, ReadField;
    if entries != [] {
      ReadFieldIsChange(b, x, entries[0]);
      if FieldChange(b, entries[0]).Ok? {
        AcceptedOneByOne(b, ReadField(b, x, entries[0]).value, entries[1..]);
      }
      assert entries == [entries[0]] + entries[1..];
    }
  }

  /** A field can be read first instead of later. */
  lemma {:induction false} ReadEarlier(b: Binding, x: Builder, before: seq<Header>, h: Header, after: seq<Header>)
    requires AllRead(b, before + [h] + after)
    requires forall g :: g in before ==> !Same(b.Rule(), g.name, h.name)
    ensures FieldChange(b, h).Ok?
    ensures ReadFields(b, x, before + [h] + after) == ReadFields(b, Changed(x, FieldChange(b, h).value), before + after)
    decreases |before|
  {
    hide FieldChange, Same, Changed, ReadField;
    var all := before + [h] + after;
    assert h in all;
    if before == [] {
      assert all[0] == h && all[1..] == after && before + after == after;
      ReadFieldIsChange(b, x, h);
    } else {
      var g, rest := before[0], before[1..];
      assert all[0] == g && all[1..] == rest + [h] + after;
      assert (before + after)[0] == g && (before + after)[1..] == rest + after;
      assert forall y :: y in rest + [h] + after ==> y in all;
      ReadFieldIsChange(b, x, g);
      var cg, ch := FieldChange(b, g).value, FieldChange(b, h).value;
      ReadEarlier(b, Changed(x, cg), rest, h, after);
      FieldsAreApart(b, g, h);
      ApartCommute(x, cg, ch);
      ReadFieldIsChange(b, Changed(x, ch), g);
    }
  }

  lemma {:induction false} FieldsOfPermutation(b: Binding, x: Builder, p: seq<Header>, q: seq<Header>)
    requires Permutation(p, q) && NoRepeats(b.Rule(), q) && AllRead(b, q)
    ensures ReadFields(b, x, p) == ReadFields(b, x, q)
    decreases |p|
  {
    hide FieldChange, Same, Changed, ReadField, NoRepeats, AllRead;
    if p == [] {
      EmptyPermutation(q);
    } else {
      var h := p[0];
      var before, after := HeadIn(p, q);
      RepeatsAround(b.Rule(), before, h, after);
      NoRepeatsTail(b.Rule(), h, before + after);
      ReadOthers(b, before, h, after);
      OthersDiffer(b.Rule(), before, h, after);
      ReadEarlier(b, x, before, h, after);
      ReadFieldIsChange(b, x, h);
      FieldsOfPermutation(b, Changed(x, FieldChange(b, h).value), p[1..], before + after);
    }
  }

  lemma ReadOthers(b: Binding, before: seq<Header>, h: Header, after: seq<Header>)
    requires AllRead(b, before + [h] + after)
    ensures AllRead(b, before + after)
  {
    hide FieldChange;
  }

  lemma OthersDiffer(rule: Matching, before: seq<Header>, h: Header, after: seq<Header>)
    requires forall x :: x in before + after ==> !Same(rule, h.name, x.name)
    ensures forall g :: g in before ==> !Same(rule, g.name, h.name)
  {
    hide Same;
    forall g: Header | g in before
      ensures !Same(rule, g.name, h.name)
    {
      assert g in before + after;
      SameIsEquivalence(rule, g.name, h.name, g.name);
    }
  }

  /** Reading accepts every permutation of a list or none, and gives the same attributes for all. */
  lemma OrderDoesNotMatter(b: Binding, p: seq<Header>, q: seq<Header>)
    requires Permutation(p, q)
    ensures ReadAttributes(b, p).Ok? <==> ReadAttributes(b, q).Ok?
    ensures ReadAttributes(b, p).Ok? ==> ReadAttributes(b, p) == ReadAttributes(b, q)
  {
    hide NoRepeats, ReadFields, FieldChange;
    RepeatsOfPermutation(b.Rule(), p, q);
    AcceptedOneByOne(b, EMPTY_BUILDER, p);
    AcceptedOneByOne(b, EMPTY_BUILDER, q);
    SameElements(p, q);
    if NoRepeats(b.Rule(), q) && AllRead(b, q) {
      FieldsOfPermutation(b, EMPTY_BUILDER, p, q);
    }
  }

  /** A list with two fields of one name is refused whatever else it holds. */
  lemma RepeatIsRefused(b: Binding, entries: seq<Header>, i: nat, j: nat)
    requires i < j < |entries| && Same(b.Rule(), entries[i].name, entries[j].name)
    ensures ReadAttributes(b, entries) == Err(InvalidArgument)
  {
    hide Same;
  }

  // MQTT reads the properties that are attributes only

  function OnlyAttributes(b: Binding, entries: seq<Header>): seq<Header> {
    if entries == [] then []
    else (if KindOf(b, entries[0].name).Attribute? then [entries[0]] else []) + OnlyAttributes(b, entries[1..])
  }

  /** Every copy of the media type agrees with the content type. */
  ghost predicate CopiesAgree(b: Binding, declared: Option<bytes>, entries: seq<Header>) {
    forall h :: h in entries && KindOf(b, h.name).MediaTypeCopy? ==> declared == Some(h.value)
  }

  ghost predicate NoCopies(b: Binding, entries: seq<Header>) {
    forall h :: h in entries ==> !KindOf(b, h.name).MediaTypeCopy?
  }

  lemma {:induction false} AttributeFieldsAre(b: Binding, declared: Option<bytes>, seen: bool, entries: seq<Header>)
    requires NoRepeats(CaseSensitive, entries) && (seen ==> NoCopies(b, entries))
    ensures AttributeFields(b, declared, seen, entries)
            == if CopiesAgree(b, declared, entries) then Ok(OnlyAttributes(b, entries)) else Err(InvalidArgument)
    decreases |entries|
  {
    hide KindOf, Same, NoRepeats, CopiesAgree;
    NoCopiesAgree(b, declared);
    if entries != [] {
      var h, rest := entries[0], entries[1..];
      assert entries == [h] + rest;
      NoRepeatsTail(CaseSensitive, h, rest);
      CopiesAgreeTail(b, declared, h, rest);
      if KindOf(b, h.name).MediaTypeCopy? && declared == Some(h.value) {
        OneCopy(b, h, rest);
        AttributeFieldsAre(b, declared, true, rest);
      } else {
        AttributeFieldsAre(b, declared, seen, rest);
      }
      assert [] + OnlyAttributes(b, rest) == OnlyAttributes(b, rest);
    }
  }

  lemma NoCopiesAgree(b: Binding, declared: Option<bytes>)
    ensures CopiesAgree(b, declared, [])
  {
  }

  lemma CopiesAgreeTail(b: Binding, declared: Option<bytes>, h: Header, rest: seq<Header>)
    ensures CopiesAgree(b, declared, [h] + rest)
            <==> (KindOf(b, h.name).MediaTypeCopy? ==> declared == Some(h.value)) && CopiesAgree(b, declared, rest)
  {
    hide KindOf;
    assert forall x :: x in [h] + rest <==> x == h || x in rest;
  }

  lemma OneCopy(b: Binding, h: Header, rest: seq<Header>)
    requires KindOf(b, h.name).MediaTypeCopy?
    requires forall x :: x in rest ==> !Same(CaseSensitive, h.name, x.name)
    ensures NoCopies(b, rest)
  {
    hide ValidName;
  }

  lemma {:induction false} OnlyAttributesSplit(b: Binding, before: seq<Header>, after: seq<Header>)
    ensures OnlyAttributes(b, before + after) == OnlyAttributes(b, before) + OnlyAttributes(b, after)
    decreases |before|
  {
    hide KindOf;
    if before == [] {
      assert before + after == after;
    } else {
      assert (before + after)[0] == before[0] && (before + after)[1..] == before[1..] + after;
      OnlyAttributesSplit(b, before[1..], after);
    }
  }

  lemma {:induction false} OnlyAttributesOfPermutation(b: Binding, p: seq<Header>, q: seq<Header>)
    requires Permutation(p, q)
    ensures Permutation(OnlyAttributes(b, p), OnlyAttributes(b, q))
    decreases |p|
  {
    hide KindOf;
    if p == [] {
      EmptyPermutation(q);
    } else {
      var h := p[0];
      var before, after := HeadIn(p, q);
      OnlyAttributesOfPermutation(b, p[1..], before + after);
      assert p == [h] + p[1..];
      OnlyAttributesSplit(b, [h], p[1..]);
      OnlyAttributesSplit(b, before + [h], after);
      OnlyAttributesSplit(b, before, [h]);
      OnlyAttributesSplit(b, before, after);
    }
  }

  lemma CopiesOfPermutation(b: Binding, declared: Option<bytes>, p: seq<Header>, q: seq<Header>)
    requires Permutation(p, q)
    ensures CopiesAgree(b, declared, p) <==> CopiesAgree(b, declared, q)
  {
    hide KindOf;
    SameElements(p, q);
  }

  lemma {:induction false} NamedOnce(entries: seq<Header>, name: bytes)
    requires NoRepeats(CaseSensitive, entries)
    ensures CountNamed(entries, name) <= 1
    ensures CountNamed(entries, name) > 0 ==> exists h :: h in entries && h.name == name
    decreases |entries|
  {
    hide NoRepeats;
    if entries != [] {
      assert entries == [entries[0]] + entries[1..];
      NoRepeatsTail(CaseSensitive, entries[0], entries[1..]);
      NamedOnce(entries[1..], name);
    }
  }

  lemma MqttFieldsOfPermutation(b: Binding, declared: Option<bytes>, p: seq<Header>, q: seq<Header>)
    requires Permutation(p, q) && NoRepeats(CaseSensitive, p)
    ensures var f, g := AttributeFields(b, declared, false, p), AttributeFields(b, declared, false, q);
            if f.Ok? then g.Ok? && Permutation(f.value, g.value) else f == g
  {
    hide KindOf, NoRepeats, CopiesAgree, OnlyAttributes, AttributeFields;
    RepeatsOfPermutation(CaseSensitive, p, q);
    AttributeFieldsAre(b, declared, false, p);
    AttributeFieldsAre(b, declared, false, q);
    CopiesOfPermutation(b, declared, p, q);
    OnlyAttributesOfPermutation(b, p, q);
  }

  lemma ContextOfPermutation(b: Binding, p: seq<Header>, q: seq<Header>)
    requires Permutation(p, q) && NoRepeats(b.Rule(), p)
    ensures ReadContext(b, p).Ok? <==> ReadContext(b, q).Ok?
    ensures ReadContext(b, p).Ok? ==> ReadContext(b, p) == ReadContext(b, q)
  {
    hide NoRepeats, ReadAttributes, Lookup, MakeContentType, AttributeFields, Permutation, NameOf;
    LookupOfPermutation(b.Rule(), p, q, b.ContentTypeHeader());
    if b.OfMqtt() {
      var declared := Lookup(b.Rule(), p, b.ContentTypeHeader());
      MqttFieldsOfPermutation(b, declared, p, q);
      var f, g := AttributeFields(b, declared, false, p), AttributeFields(b, declared, false, q);
      if f.Ok? {
        OrderDoesNotMatter(b, f.value, g.value);
      }
    } else {
      OrderDoesNotMatter(b, p, q);
    }
  }

  /** Of whole messages: without a repeated name, every binding accepts all orders of the fields or none,
      and gives the same event for all. */
  lemma MessageOrderDoesNotMatter(b: Binding, p: seq<Header>, q: seq<Header>, body: bytes, r: Receiver)
    requires Permutation(p, q) && NoRepeats(b.Rule(), p)
    ensures Received(b, p, body, r).Ok? <==> Received(b, q, body, r).Ok?
    ensures Received(b, p, body, r).Ok? ==> Received(b, p, body, r) == Received(b, q, body, r)
  {
    hide NoRepeats, ReadContext, Lookup, ReadBody, StartsWith, Permutation, CountNamed, NameOf;
    ContextOfPermutation(b, p, q);
    LookupOfPermutation(b.Rule(), p, q, b.ContentTypeHeader());
    LookupOfPermutation(b.Rule(), p, q, b.Prefix() + NameOf(SpecVersion));
    if b.OfMqtt() {
      RepeatsOfPermutation(CaseSensitive, p, q);
      NamedOnce(p, b.ContentTypeHeader());
      NamedOnce(q, b.ContentTypeHeader());
    }
  }
}
