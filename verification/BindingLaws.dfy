/** Binary mode undoes itself: what each binding's writer puts into the header fields its reader gets back. */
module BindingLaws {
  import opened Wrappers
  import opened Attributes
  import opened Headers
  import opened Bindings
  import opened JsonFormat
  import Order
  import Percent
  import Utf8

  // Values

  /** A value that could be written is read back exactly when it is well-formed UTF-8, and every binding
      but NATS refuses to write one that is not. */
  lemma ValueReturns(b: Binding, text: bytes)
    requires EncodeValue(b, text).Ok?
    ensures DecodeValue(b, EncodeValue(b, text).value) == if Utf8.WellFormed(text) then Ok(text) else Err(InvalidUtf8)
    ensures !b.Nats? ==> Utf8.WellFormed(text)
  {
    hide Percent.Encode, Percent.Decode, HasControl;
    Percent.RoundTrip(text);
  }

  /** NATS writes an octet that is no UTF-8 and does not read it back. */
  lemma NatsWritesWhatItRefuses()
    ensures EncodeValue(Nats, [0xFF]).Ok? && DecodeValue(Nats, EncodeValue(Nats, [0xFF]).value) == Err(InvalidUtf8)
  {
    hide Percent.Encode, Percent.Decode;
    Utf8.WellFormedUnfolds([0xFF]);
    ValueReturns(Nats, [0xFF]);
  }

  // Names

  lemma ValidNameIsLower(name: bytes)
    requires ValidName(name)
    ensures LowerAll(name) == name
  {
  }

  lemma EqualWithPrefix(prefix: bytes, name: bytes)
    ensures EqualIgnoringCase((prefix + name)[..|prefix|], prefix)
  {
    assert (prefix + name)[..|prefix|] == prefix;
  }

  lemma NameReturns(b: Binding, name: bytes)
    requires ValidName(name)
    ensures CarriesPrefix(b, b.Prefix() + name) && AttributeNameOf(b, b.Prefix() + name) == name
  {
    hide EqualIgnoringCase, ValidName, LowerAll;
    var prefix := b.Prefix();
    EqualWithPrefix(prefix, name);
    assert (prefix + name)[|prefix|..] == name;
    ValidNameIsLower(name);
  }

  lemma PrefixedLowersAgree(prefix: bytes, n: bytes, m: bytes)
    requires ValidName(n) && ValidName(m)
    ensures EqualIgnoringCase(prefix + n, prefix + m) ==> n == m
  {
    hide ValidName, Lower, LowerAll;
    var p, q, k := prefix + n, prefix + m, |prefix|;
    if EqualIgnoringCase(p, q) {
      ValidNameIsLower(n);
      ValidNameIsLower(m);
      forall i | 0 <= i < |n|
        ensures n[i] == m[i]
      {
        assert Lower(p[k + i]) == Lower(q[k + i]) && p[k + i] == n[i] && q[k + i] == m[i];
        assert LowerAll(n)[i] == n[i] && LowerAll(m)[i] == m[i];
      }
    }
  }

  lemma NamesStayApart(b: Binding, n: bytes, m: bytes)
    requires ValidName(n) && ValidName(m) && n != m
    ensures !Same(b.Rule(), b.Prefix() + n, b.Prefix() + m)
  {
    hide ValidName, EqualIgnoringCase;
    var p, q, k := b.Prefix() + n, b.Prefix() + m, |b.Prefix()|;
    PrefixedLowersAgree(b.Prefix(), n, m);
    assert p[k..] == n && q[k..] == m;
  }

  /** The content type field is no attribute field. */
  lemma ContentTypeStandsApart(b: Binding, name: bytes)
    requires ValidName(name)
    ensures !Same(b.Rule(), b.Prefix() + name, b.ContentTypeHeader())
    ensures !Same(b.Rule(), b.ContentTypeHeader(), b.Prefix() + name)
  {
    var field, header := b.Prefix() + name, b.ContentTypeHeader();
    if b.Mqtt? {
      assert header[7] == '-' as int;
      assert field == name;
      assert |field| == |header| ==> field[7] != header[7];
    } else {
      assert field[1] == 'e' as int && header[1] == 'o' as int;
      assert Lower(field[1]) != Lower(header[1]);
    }
  }

  lemma ContentTypeIsNoAttribute(b: Binding)
    ensures !b.Mqtt? ==> !CarriesPrefix(b, b.ContentTypeHeader())
    ensures b.OfMqtt() ==> KindOf(b, b.ContentTypeHeader()) == Foreign
  {
    var header := b.ContentTypeHeader();
    assert header[1] == 'o' as int && header[7] == '-' as int;
    if b.Mqtt? {
      assert header[0..] == header;
      assert !IsNameCharacter(header[7]);
    } else {
      assert b.Prefix()[1] == 'e' as int;
      assert Lower(header[1]) != Lower(b.Prefix()[1]);
      assert header[..3][1] == header[1];
    }
  }

  // What is written

  ghost predicate Named(pairs: seq<Header>) {
    forall p :: p in pairs ==> ValidName(p.name)
  }

  predicate AllEncode(b: Binding, pairs: seq<Header>) {
    forall p :: p in pairs ==> EncodeValue(b, p.value).Ok?
  }

  function Fields(b: Binding, pairs: seq<Header>): seq<Header>
    requires AllEncode(b, pairs)
  {
    if pairs == [] then []
    else
      assert pairs[0] in pairs;
      [Header(b.Prefix() + pairs[0].name, EncodeValue(b, pairs[0].value).value)] + Fields(b, pairs[1..])
  }

  lemma {:induction false} PutAfterFailure(b: Binding, w: Written, pairs: seq<Header>)
    requires w.failure.Some?
    ensures PutAll(b, w, pairs) == w
    decreases |pairs|
  {
    hide EncodeValue;
    if pairs != [] {
      PutAfterFailure(b, w, pairs[1..]);
    }
  }

  /** None of the fields has the name of one of the pairs. */
  ghost predicate Unused(b: Binding, entries: seq<Header>, pairs: seq<Header>) {
    forall h, p :: h in entries && p in pairs ==> !Same(b.Rule(), h.name, b.Prefix() + p.name)
  }

  lemma UnusedOne(b: Binding, entries: seq<Header>, p: Header, rest: seq<Header>, value: bytes)
    requires Unused(b, entries, [p] + rest) && Named([p] + rest)
    requires forall x :: x in rest ==> !Same(CaseSensitive, p.name, x.name)
    ensures forall h :: h in entries ==> !Same(b.Rule(), h.name, b.Prefix() + p.name)
    ensures Unused(b, entries + [Header(b.Prefix() + p.name, value)], rest)
    ensures Named(rest)
  {
    hide ValidName, EqualIgnoringCase;
    assert forall x :: x in [p] + rest <==> x == p || x in rest;
    forall x: Header | x in rest
      ensures !Same(b.Rule(), b.Prefix() + p.name, b.Prefix() + x.name)
    {
      NamesStayApart(b, p.name, x.name);
    }
  }

  lemma PutOne(b: Binding, w: Written, p: Header)
    requires w.failure.None? && forall h :: h in w.entries ==> !Same(b.Rule(), h.name, b.Prefix() + p.name)
    ensures EncodeValue(b, p.value).Err? ==> PutAttribute(b, w, p.name, p.value).failure.Some?
    ensures EncodeValue(b, p.value).Ok?
            ==> PutAttribute(b, w, p.name, p.value)
                == Written(w.entries + [Header(b.Prefix() + p.name, EncodeValue(b, p.value).value)], None)
  {
    hide EncodeValue, Same;
    WithoutAbsent(b.Rule(), w.entries, b.Prefix() + p.name);
  }

  lemma {:induction false} PutAllAppends(b: Binding, w: Written, pairs: seq<Header>)
    requires w.failure.None? && Named(pairs) && NoRepeats(CaseSensitive, pairs) && Unused(b, w.entries, pairs)
    ensures PutAll(b, w, pairs).failure.None? <==> AllEncode(b, pairs)
    ensures AllEncode(b, pairs) ==> PutAll(b, w, pairs).entries == w.entries + Fields(b, pairs)
    decreases |pairs|
  {
    hide EncodeValue, Same, Unused, Named, PutAttribute, NoRepeats;
    if pairs != [] {
      var p, rest := pairs[0], pairs[1..];
      assert pairs == [p] + rest;
      assert forall x :: x in pairs <==> x == p || x in rest;
      NoRepeatsTail(CaseSensitive, p, rest);
      var value := if EncodeValue(b, p.value).Ok? then EncodeValue(b, p.value).value else [];
      UnusedOne(b, w.entries, p, rest, value);
      PutOne(b, w, p);
      var next := PutAttribute(b, w, p.name, p.value);
      if next.failure.Some? {
        PutAfterFailure(b, next, rest);
      } else {
        PutAllAppends(b, next, rest);
        FieldsJoin(b, w.entries, pairs);
      }
    }
  }

  lemma FieldsJoin(b: Binding, before: seq<Header>, pairs: seq<Header>)
    requires pairs != []
    ensures AllEncode(b, pairs)
            ==> before + Fields(b, pairs)
                == before + [Header(b.Prefix() + pairs[0].name, EncodeValue(b, pairs[0].value).value)] + Fields(b, pairs[1..])
  {
    hide EncodeValue;
  }

  /** All that is written as attribute fields: NATS writes the media type among them. */
  function AllPairs(b: Binding, e: Event): seq<Header>
    requires RenderableOptions(e.rest)
  {
    Pairs(e) + if b.ContentTypeIsAttribute() then OptionalPair(DataContentType, e.rest.datacontenttype) else []
  }

  function MediaField(b: Binding, e: Event): seq<Header> {
    if b.ContentTypeIsAttribute() || e.rest.datacontenttype.None? then []
    else [Header(b.ContentTypeHeader(), e.rest.datacontenttype.value)]
  }

  // The names written are valid and differ

  ghost predicate UnderReserved(pairs: seq<Header>, used: set<Reserved>) {
    forall p :: p in pairs ==> exists r :: r in used && r != DataBase64 && p.name == NameOf(r)
  }

  lemma AppendReserved(pairs: seq<Header>, used: set<Reserved>, r: Reserved, text: bytes)
    requires UnderReserved(pairs, used) && NoRepeats(CaseSensitive, pairs) && r !in used && r != DataBase64
    ensures UnderReserved(pairs + [Pair(r, text)], used + {r}) && NoRepeats(CaseSensitive, pairs + [Pair(r, text)])
  {
    hide NameOf;
    forall i | 0 <= i < |pairs|
      ensures pairs[i].name != NameOf(r)
    {
      assert pairs[i] in pairs;
      var q :| q in used && pairs[i].name == NameOf(q);
      NamesDiffer(q, r);
    }
    assert forall p :: p in pairs + [Pair(r, text)] <==> p in pairs || p == Pair(r, text);
  }

  lemma AppendOptional(pairs: seq<Header>, used: set<Reserved>, r: Reserved, text: Option<bytes>)
    requires UnderReserved(pairs, used) && NoRepeats(CaseSensitive, pairs) && r !in used && r != DataBase64
    ensures UnderReserved(pairs + OptionalPair(r, text), used + {r}) && NoRepeats(CaseSensitive, pairs + OptionalPair(r, text))
  {
    hide NameOf, NoRepeats;
    if text.Some? {
      AppendReserved(pairs, used, r, text.value);
    } else {
      assert pairs + [] == pairs;
    }
  }

  lemma RequiredNames(e: Event)
    ensures UnderReserved(RequiredPairs(e), {SpecVersion, Id, Source, Type}) && NoRepeats(CaseSensitive, RequiredPairs(e))
  {
    hide NoRepeats, UnderReserved, Pair, VERSION;
    assert UnderReserved([], {}) && NoRepeats(CaseSensitive, []) by { NothingNamed(); }
    AppendReserved([], {}, SpecVersion, VERSION);
    var m := [] + [Pair(SpecVersion, VERSION)];
    AppendReserved(m, {} + {SpecVersion}, Id, e.id);
    m := m + [Pair(Id, e.id)];
    AppendReserved(m, {} + {SpecVersion} + {Id}, Source, e.source);
    m := m + [Pair(Source, e.source)];
    AppendReserved(m, {} + {SpecVersion} + {Id} + {Source}, Type, e.kind);
    assert m + [Pair(Type, e.kind)] == RequiredPairs(e);
    assert {} + {SpecVersion} + {Id} + {Source} + {Type} == {SpecVersion, Id, Source, Type};
  }

  lemma NothingNamed()
    ensures UnderReserved([], {}) && NoRepeats(CaseSensitive, [])
  {
  }

  lemma ContextNames(e: Event)
    requires RenderableOptions(e.rest)
    ensures UnderReserved(ContextPairs(e), {SpecVersion, Id, Source, Type, DataSchema, Subject, Time})
    ensures NoRepeats(CaseSensitive, ContextPairs(e))
  {
    hide NoRepeats, UnderReserved, RequiredPairs, OptionalPair, TimeText, RenderableOptions;
    RequiredNames(e);
    var m, used := RequiredPairs(e), {SpecVersion, Id, Source, Type};
    AppendOptional(m, used, DataSchema, e.rest.dataschema);
    m, used := m + OptionalPair(DataSchema, e.rest.dataschema), used + {DataSchema};
    AppendOptional(m, used, Subject, e.rest.subject);
    m, used := m + OptionalPair(Subject, e.rest.subject), used + {Subject};
    AppendOptional(m, used, Time, TimeText(e.rest));
    assert used + {Time} == {SpecVersion, Id, Source, Type, DataSchema, Subject, Time};
  }

  lemma {:induction false} ExtensionNames(names: seq<bytes>, extensions: map<bytes, AttributeValue>)
    requires forall k :: k in names ==> k in extensions && Renderable(extensions[k])
    requires forall i, j :: 0 <= i < j < |names| ==> names[i] != names[j]
    ensures NoRepeats(CaseSensitive, ExtensionPairs(names, extensions))
    ensures forall p :: p in ExtensionPairs(names, extensions)
              ==> p.name in names && p.name in extensions && Renderable(extensions[p.name]) && p.value == RenderAttribute(extensions[p.name])
    decreases |names|
  {
    hide Renderable, RenderAttribute, NoRepeats;
    if names == [] {
      NothingNamed();
    } else {
      ExtensionNames(names[1..], extensions);
      var rest := ExtensionPairs(names[1..], extensions);
      var p := Header(names[0], RenderAttribute(extensions[names[0]]));
      NoRepeatsTail(CaseSensitive, p, rest);
    }
  }

  lemma {:induction false} JoinNoRepeats(rule: Matching, a: seq<Header>, c: seq<Header>)
    requires NoRepeats(rule, a) && NoRepeats(rule, c)
    requires forall x, y :: x in a && y in c ==> !Same(rule, x.name, y.name)
    ensures NoRepeats(rule, a + c)
    decreases |a|
  {
    hide Same, NoRepeats;
    if a == [] {
      assert a + c == c;
    } else {
      assert a == [a[0]] + a[1..] && a + c == [a[0]] + (a[1..] + c);
      NoRepeatsTail(rule, a[0], a[1..]);
      JoinNoRepeats(rule, a[1..], c);
      NoRepeatsTail(rule, a[0], a[1..] + c);
    }
  }

  /** What is known of the pairs of an event. */
  ghost predicate WellNamed(b: Binding, e: Event)
    requires RenderableOptions(e.rest)
  {
    && Named(AllPairs(b, e)) && NoRepeats(CaseSensitive, AllPairs(b, e))
    && (!b.ContentTypeIsAttribute() ==> forall p :: p in AllPairs(b, e) ==> p.name != NameOf(DataContentType))
  }

  lemma ReservedIsNamed(pairs: seq<Header>, used: set<Reserved>)
    requires UnderReserved(pairs, used)
    ensures Named(pairs)
    ensures forall p, q :: p in pairs && ReservedAs(q).None? ==> p.name != q
    ensures DataContentType !in used ==> forall p :: p in pairs ==> p.name != NameOf(DataContentType)
  {
    hide NameOf, ReservedAs, ValidName;
    forall p: Header | p in pairs
      ensures ValidName(p.name) && ReservedAs(p.name).Some?
      ensures DataContentType !in used ==> p.name != NameOf(DataContentType)
    {
      var r :| r in used && r != DataBase64 && p.name == NameOf(r);
      ReservedNamesAreValid(r);
      ReservedAsName(r);
      NamesDiffer(r, DataContentType);
    }
  }

  lemma PairNames(e: Event)
    requires ValidOptions(e.rest) && RenderableOptions(e.rest)
    ensures Named(Pairs(e)) && NoRepeats(CaseSensitive, Pairs(e))
    ensures forall p :: p in Pairs(e) ==> p.name != NameOf(DataContentType)
  {
    hide NameOf, ReservedAs, ValidName, Renderable, ContextPairs, ExtensionPairs, NoRepeats, UnderReserved, Order.Sorted, Order.LessEq,
      MakeContentType, OptionalOk;
    ContextNames(e);
    ReservedIsNamed(ContextPairs(e), {SpecVersion, Id, Source, Type, DataSchema, Subject, Time});
    var names := Order.Sorted(e.rest.extensions.Keys);
    Order.SortedAscends(e.rest.extensions.Keys);
    ExtensionNames(names, e.rest.extensions);
    var extensions := ExtensionPairs(names, e.rest.extensions);
    forall p: Header | p in extensions
      ensures ValidName(p.name) && ReservedAs(p.name).None?
    {
      assert p.name in e.rest.extensions;
      assert MakeExtensionName(p.name).Ok?;
    }
    ReservedAsName(DataContentType);
    JoinNoRepeats(CaseSensitive, ContextPairs(e), extensions);
  }

  lemma AllPairNames(b: Binding, e: Event)
    requires ValidOptions(e.rest) && RenderableOptions(e.rest)
    ensures WellNamed(b, e)
  {
    hide NameOf, ValidName, ValidOptions, RenderableOptions, Pairs, NoRepeats;
    PairNames(e);
    ReservedNamesAreValid(DataContentType);
    var more := if b.ContentTypeIsAttribute() then OptionalPair(DataContentType, e.rest.datacontenttype) else [];
    assert NoRepeats(CaseSensitive, more) by { OneAlone(more); }
    JoinNoRepeats(CaseSensitive, Pairs(e), more);
    assert forall p :: p in AllPairs(b, e) <==> p in Pairs(e) || p in more;
  }

  lemma OneAlone(pairs: seq<Header>)
    requires |pairs| <= 1
    ensures NoRepeats(CaseSensitive, pairs)
  {
  }

  lemma {:induction false} PutAllSplit(b: Binding, w: Written, a: seq<Header>, c: seq<Header>)
    ensures PutAll(b, w, a + c) == PutAll(b, PutAll(b, w, a), c)
    decreases |a|
  {
    hide PutAttribute;
    if a == [] {
      assert a + c == c;
    } else {
      assert (a + c)[0] == a[0] && (a + c)[1..] == a[1..] + c;
      PutAllSplit(b, PutAttribute(b, w, a[0].name, a[0].value), a[1..], c);
    }
  }

  lemma WrittenAll(b: Binding, e: Event)
    requires RenderableOptions(e.rest)
    ensures var w := PutAll(b, Written([], None), AllPairs(b, e));
            WriteAttributes(b, e, [])
            == if b.ContentTypeIsAttribute() then w else PutMediaType(b, w, e.rest.datacontenttype)
  {
    hide PutAttribute, Pairs, RenderableOptions;
    var more := if b.ContentTypeIsAttribute() then OptionalPair(DataContentType, e.rest.datacontenttype) else [];
    PutAllSplit(b, Written([], None), Pairs(e), more);
    var w := PutAll(b, Written([], None), Pairs(e));
    if b.ContentTypeIsAttribute() && w.failure.Some? {
      PutAfterFailure(b, w, more);
    }
  }

  /** What the writer leaves when it succeeds. */
  lemma WrittenIs(b: Binding, e: Event)
    requires ValidOptions(e.rest) && RenderableOptions(e.rest) && WriteAttributes(b, e, []).failure.None?
    ensures AllEncode(b, AllPairs(b, e))
    ensures WriteAttributes(b, e, []).entries == Fields(b, AllPairs(b, e)) + MediaField(b, e)
  {
    hide PutAll, PutAttribute, Pairs, RenderableOptions, Fields, AllPairs, NoRepeats, Named, WriteAttributes, ValidOptions, AllEncode;
    AllPairNames(b, e);
    WrittenAll(b, e);
    assert Unused(b, [], AllPairs(b, e));
    PutAllAppends(b, Written([], None), AllPairs(b, e));
    var fields := Fields(b, AllPairs(b, e));
    assert [] + fields == fields;
    if !b.ContentTypeIsAttribute() && e.rest.datacontenttype.Some? {
      MediaTypeIsNew(b, AllPairs(b, e));
      WithoutAbsent(b.Rule(), fields, b.ContentTypeHeader());
    } else {
      assert fields + [] == fields;
    }
  }

  lemma {:induction false} FieldOf(b: Binding, pairs: seq<Header>, h: Header) returns (p: Header)
    requires AllEncode(b, pairs) && h in Fields(b, pairs)
    ensures p in pairs && h == Header(b.Prefix() + p.name, EncodeValue(b, p.value).value)
    decreases |pairs|
  {
    hide EncodeValue;
    if h == Fields(b, pairs)[0] {
      p := pairs[0];
    } else {
      p := FieldOf(b, pairs[1..], h);
    }
  }

  lemma MediaTypeIsNew(b: Binding, pairs: seq<Header>)
    requires AllEncode(b, pairs) && Named(pairs)
    ensures forall h :: h in Fields(b, pairs) ==> !Same(b.Rule(), h.name, b.ContentTypeHeader())
    ensures forall h :: h in Fields(b, pairs) ==> !Same(b.Rule(), b.ContentTypeHeader(), h.name)
  {
    hide Fields, Same, AllEncode, EncodeValue, ValidName;
    forall h: Header | h in Fields(b, pairs)
      ensures !Same(b.Rule(), h.name, b.ContentTypeHeader()) && !Same(b.Rule(), b.ContentTypeHeader(), h.name)
    {
      var p := FieldOf(b, pairs, h);
      ContentTypeStandsApart(b, p.name);
    }
  }

  lemma {:induction false} FieldsNoRepeats(b: Binding, pairs: seq<Header>)
    requires AllEncode(b, pairs) && Named(pairs) && NoRepeats(CaseSensitive, pairs)
    ensures NoRepeats(b.Rule(), Fields(b, pairs))
    decreases |pairs|
  {
    hide EncodeValue, Same, ValidName, NoRepeats;
    if pairs == [] {
      NothingRepeats(b.Rule());
    } else {
      var p, rest := pairs[0], pairs[1..];
      assert pairs == [p] + rest;
      assert p in pairs;
      NoRepeatsTail(CaseSensitive, p, rest);
      FieldsNoRepeats(b, rest);
      var h := Header(b.Prefix() + p.name, EncodeValue(b, p.value).value);
      forall x: Header | x in Fields(b, rest)
        ensures !Same(b.Rule(), h.name, x.name)
      {
        var q := FieldOf(b, rest, x);
        DifferentNames(p.name, q.name);
        NamesStayApart(b, p.name, q.name);
      }
      NoRepeatsTail(b.Rule(), h, Fields(b, rest));
    }
  }

  lemma DifferentNames(n: bytes, m: bytes)
    ensures Same(CaseSensitive, n, m) <==> n == m
  {
  }

  lemma NothingRepeats(rule: Matching)
    ensures NoRepeats(rule, [])
  {
  }
}
