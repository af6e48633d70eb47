/** The header list of a message (include/cloudevents/message.hpp): ordered, repeats allowed, searched with
    or without regard to case. */
module Headers {
  import opened Wrappers
  import opened Attributes

  datatype Header = Header(name: bytes, value: bytes)

  datatype Matching = CaseSensitive | CaseInsensitive

  predicate Same(rule: Matching, a: bytes, b: bytes) {
    match rule
    case CaseSensitive => a == b
    case CaseInsensitive => EqualIgnoringCase(a, b)
  }

  /** The list without the fields of the name. */
  function Without(rule: Matching, entries: seq<Header>, name: bytes): seq<Header> {
    if entries == [] then []
    else if Same(rule, entries[0].name, name) then Without(rule, entries[1..], name)
    else [entries[0]] + Without(rule, entries[1..], name)
  }

  function Put(rule: Matching, entries: seq<Header>, name: bytes, value: bytes): seq<Header> {
    Without(rule, entries, name) + [Header(name, value)]
  }

  /** The value of the first field of the name. */
  function Lookup(rule: Matching, entries: seq<Header>, name: bytes): Option<bytes> {
    if entries == [] then None
    else if Same(rule, entries[0].name, name) then Some(entries[0].value)
    else Lookup(rule, entries[1..], name)
  }

  /** No field has the name of an earlier one. */
  ghost predicate NoRepeats(rule: Matching, entries: seq<Header>) {
    forall i, j :: 0 <= i < j < |entries| ==> !Same(rule, entries[i].name, entries[j].name)
  }

  /** The field at `j` is the first with the name of an earlier one, at `i`. */
  ghost predicate FirstRepeat(rule: Matching, entries: seq<Header>, i: nat, j: nat) {
    i < j < |entries| && Same(rule, entries[i].name, entries[j].name) && NoRepeats(rule, entries[..j])
  }

  lemma SameIsEquivalence(rule: Matching, a: bytes, b: bytes, c: bytes)
    ensures Same(rule, a, a)
    ensures Same(rule, a, b) ==> Same(rule, b, a)
    ensures Same(rule, a, b) && Same(rule, b, c) ==> Same(rule, a, c)
  {
    hide Lower;
  }

  lemma {:induction false} WithoutIs(rule: Matching, entries: seq<Header>, name: bytes)
    ensures forall h :: h in Without(rule, entries, name) <==> h in entries && !Same(rule, h.name, name)
  {
    hide Same;
    if entries != [] {
      WithoutIs(rule, entries[1..], name);
    }
  }

  lemma {:induction false} WithoutAbsent(rule: Matching, entries: seq<Header>, name: bytes)
    requires forall h :: h in entries ==> !Same(rule, h.name, name)
    ensures Without(rule, entries, name) == entries
  {
    hide Same;
    if entries != [] {
      WithoutAbsent(rule, entries[1..], name);
    }
  }

  lemma {:induction false} WithoutKeepsOthers(rule: Matching, entries: seq<Header>, name: bytes, other: bytes)
    requires !Same(rule, name, other)
    ensures Lookup(rule, Without(rule, entries, name), other) == Lookup(rule, entries, other)
  {
    hide Same;
    if entries != [] {
      WithoutKeepsOthers(rule, entries[1..], name, other);
      SameIsEquivalence(rule, name, entries[0].name, other);
      SameIsEquivalence(rule, entries[0].name, name, other);
    }
  }

  lemma {:induction false} LookupAbsent(rule: Matching, entries: seq<Header>, name: bytes)
    ensures Lookup(rule, entries, name).None? <==> forall h :: h in entries ==> !Same(rule, h.name, name)
  {
    hide Same;
    if entries != [] {
      LookupAbsent(rule, entries[1..], name);
    }
  }

  lemma {:induction false} LookupSplit(rule: Matching, a: seq<Header>, b: seq<Header>, name: bytes)
    ensures Lookup(rule, a + b, name) == if Lookup(rule, a, name).Some? then Lookup(rule, a, name) else Lookup(rule, b, name)
  {
    hide Same;
    if a == [] {
      assert a + b == b;
    } else {
      assert (a + b)[1..] == a[1..] + b;
      LookupSplit(rule, a[1..], b, name);
    }
  }

  /** After a set, the name has the value, every other name what it had, and no name comes a second
      time that did not before. */
  lemma PutIsUpdate(rule: Matching, entries: seq<Header>, name: bytes, value: bytes, other: bytes)
    ensures Lookup(rule, Put(rule, entries, name, value), other)
            == if Same(rule, name, other) then Some(value) else Lookup(rule, entries, other)
  {
    hide Same, Without;
    var kept := Without(rule, entries, name);
    LookupSplit(rule, kept, [Header(name, value)], other);
    if Same(rule, name, other) {
      LookupAbsent(rule, kept, other);
      WithoutIs(rule, entries, name);
      forall h | h in kept
        ensures !Same(rule, h.name, other)
      {
        SameIsEquivalence(rule, name, other, name);
        SameIsEquivalence(rule, h.name, other, name);
      }
    } else {
      WithoutKeepsOthers(rule, entries, name, other);
    }
  }

  lemma {:induction false} WithoutHasNoRepeats(rule: Matching, entries: seq<Header>, name: bytes)
    requires NoRepeats(rule, entries)
    ensures NoRepeats(rule, Without(rule, entries, name))
  {
    hide Same;
    if entries != [] {
      assert NoRepeats(rule, entries[1..]);
      WithoutHasNoRepeats(rule, entries[1..], name);
      WithoutIs(rule, entries[1..], name);
      var rest := Without(rule, entries[1..], name);
      forall j | 0 <= j < |rest|
        ensures !Same(rule, entries[0].name, rest[j].name)
      {
        assert rest[j] in entries[1..];
      }
    }
  }

  lemma PutHasNoRepeats(rule: Matching, entries: seq<Header>, name: bytes, value: bytes)
    requires NoRepeats(rule, entries)
    ensures NoRepeats(rule, Put(rule, entries, name, value))
  {
    hide Same, Without;
    WithoutHasNoRepeats(rule, entries, name);
    WithoutIs(rule, entries, name);
    var kept := Without(rule, entries, name);
    forall i | 0 <= i < |kept|
      ensures !Same(rule, kept[i].name, name)
    {
      assert kept[i] in kept;
    }
  }

  // Lists that differ in order only

  lemma NoRepeatsTail(rule: Matching, h: Header, rest: seq<Header>)
    ensures NoRepeats(rule, [h] + rest)
            <==> NoRepeats(rule, rest) && forall x :: x in rest ==> !Same(rule, h.name, x.name)
  {
    hide Same;
    var all := [h] + rest;
    assert forall i :: 0 <= i < |rest| ==> all[i + 1] == rest[i];
    if NoRepeats(rule, all) {
      forall x | x in rest
        ensures !Same(rule, h.name, x.name)
      {
        var i :| 0 <= i < |rest| && rest[i] == x;
        assert all[0] == h && all[i + 1] == x;
      }
      forall i, j | 0 <= i < j < |rest|
        ensures !Same(rule, rest[i].name, rest[j].name)
      {
        assert all[i + 1] == rest[i] && all[j + 1] == rest[j];
      }
    }
  }

  lemma {:induction false} RepeatsAround(rule: Matching, before: seq<Header>, h: Header, after: seq<Header>)
    ensures NoRepeats(rule, before + [h] + after) <==> NoRepeats(rule, [h] + (before + after))
  {
    hide Same, NoRepeats;
    if before == [] {
      assert before + [h] + after == [h] + (before + after);
    } else {
      var x, rest := before[0], before[1..];
      RepeatsAround(rule, rest, h, after);
      assert before + [h] + after == [x] + (rest + [h] + after) && before + after == [x] + (rest + after);
      NoRepeatsTail(rule, x, rest + [h] + after);
      NoRepeatsTail(rule, x, rest + after);
      NoRepeatsTail(rule, h, rest + after);
      NoRepeatsTail(rule, h, [x] + (rest + after));
      SameIsEquivalence(rule, x.name, h.name, x.name);
      SameIsEquivalence(rule, h.name, x.name, h.name);
      assert forall y :: y in rest + [h] + after <==> y == h || y in rest + after;
      assert forall y :: y in [x] + (rest + after) <==> y == x || y in rest + after;
    }
  }

  ghost predicate Permutation(a: seq<Header>, b: seq<Header>) {
    multiset(a) == multiset(b)
  }

  lemma TakenOut(s: seq<Header>, i: nat)
    requires i < |s|
    ensures multiset(s[..i] + s[i + 1..]) == multiset(s) - multiset{s[i]}
  {
    assert s == s[..i] + [s[i]] + s[i + 1..];
  }

  lemma HeadTaken(a: seq<Header>)
    requires a != []
    ensures multiset(a[1..]) == multiset(a) - multiset{a[0]}
  {
    TakenOut(a, 0);
    assert a[..0] + a[1..] == a[1..];
  }

  lemma StandsAt(a: seq<Header>, b: seq<Header>) returns (i: nat)
    requires a != [] && Permutation(a, b)
    ensures i < |b| && b[i] == a[0]
  {
    assert a[0] in multiset(a);
    assert a[0] in multiset(b);
    i :| 0 <= i < |b| && b[i] == a[0];
  }

  /** Where the head of a list stands in a permutation of it. */
  lemma HeadIn(a: seq<Header>, b: seq<Header>) returns (before: seq<Header>, after: seq<Header>)
    requires a != [] && Permutation(a, b)
    ensures b == before + [a[0]] + after && Permutation(a[1..], before + after)
  {
    var i := StandsAt(a, b);
    before, after := b[..i], b[i + 1..];
    TakenOut(b, i);
    HeadTaken(a);
  }

  lemma {:induction false} RepeatsOfPermutation(rule: Matching, a: seq<Header>, b: seq<Header>)
    requires Permutation(a, b)
    ensures NoRepeats(rule, a) <==> NoRepeats(rule, b)
    decreases |a|
  {
    hide Same, NoRepeats;
    if a == [] {
      assert multiset(b) == multiset{};
      EmptyPermutation(b);
    } else {
      var before, after := HeadIn(a, b);
      RepeatsOfPermutation(rule, a[1..], before + after);
      RepeatsAround(rule, before, a[0], after);
      assert a == [a[0]] + a[1..];
      NoRepeatsTail(rule, a[0], a[1..]);
      NoRepeatsTail(rule, a[0], before + after);
      SameElements(a[1..], before + after);
    }
  }

  lemma EmptyPermutation(b: seq<Header>)
    requires multiset(b) == multiset{}
    ensures b == []
  {
    assert |b| == |multiset(b)|;
  }

  lemma SameElements(a: seq<Header>, b: seq<Header>)
    requires Permutation(a, b)
    ensures forall x :: x in a <==> x in b
  {
    forall x
      ensures x in a <==> x in b
    {
      assert x in a <==> x in multiset(a);
      assert x in b <==> x in multiset(b);
    }
  }

  /** Where no name repeats, every order of the fields finds the same one. */
  lemma LookupOfPermutation(rule: Matching, a: seq<Header>, b: seq<Header>, name: bytes)
    requires Permutation(a, b) && NoRepeats(rule, a)
    ensures Lookup(rule, a, name) == Lookup(rule, b, name)
  {
    hide Same, NoRepeats;
    RepeatsOfPermutation(rule, a, b);
    SameElements(a, b);
    LookupAbsent(rule, a, name);
    LookupAbsent(rule, b, name);
    if Lookup(rule, a, name).Some? {
      var h := LookupIs(rule, a, name);
      var g := LookupIs(rule, b, name);
      OnlyOne(rule, a, h, g, name);
    }
  }

  lemma {:induction false} LookupIs(rule: Matching, entries: seq<Header>, name: bytes) returns (h: Header)
    requires Lookup(rule, entries, name).Some?
    ensures h in entries && Same(rule, h.name, name) && Lookup(rule, entries, name) == Some(h.value)
  {
    hide Same;
    if Same(rule, entries[0].name, name) {
      h := entries[0];
    } else {
      h := LookupIs(rule, entries[1..], name);
    }
  }

  lemma OnlyOne(rule: Matching, entries: seq<Header>, h: Header, g: Header, name: bytes)
    requires NoRepeats(rule, entries) && h in entries && g in entries && Same(rule, h.name, name) && Same(rule, g.name, name)
    ensures h == g
  {
    hide Same;
    var i :| 0 <= i < |entries| && entries[i] == h;
    var j :| 0 <= j < |entries| && entries[j] == g;
    SameIsEquivalence(rule, g.name, name, name);
    SameIsEquivalence(rule, h.name, name, g.name);
    SameIsEquivalence(rule, h.name, name, name);
    SameIsEquivalence(rule, g.name, name, h.name);
  }

  // The class

  class RawHeaders {
    var entries: seq<Header>

    constructor (fields: seq<Header>)
      ensures entries == fields
    {
      entries := fields;
    }

    method Add(name: bytes, value: bytes)
      modifies this
      ensures entries == old(entries) + [Header(name, value)]
    {
      entries := entries + [Header(name, value)];
    }

    /** `erase_if` keeps the others in order. */
    method Erase(rule: Matching, name: bytes)
      modifies this
      ensures entries == Without(rule, old(entries), name)
    {
      hide Same, Without;
      var kept: seq<Header> := [];
      var all := entries;
      assert all[0..] == all;
      for i := 0 to |all|
        invariant Without(rule, all, name) == kept + Without(rule, all[i..], name)
      {
        WithoutUnfolds(rule, all[i..], name, kept);
        assert all[i..][1..] == all[i + 1..];
        if !Same(rule, all[i].name, name) {
          kept := kept + [all[i]];
        }
      }
      WithoutUnfolds(rule, all[|all|..], name, kept);
      entries := kept;
    }

    method Set(name: bytes, value: bytes)
      modifies this
      ensures entries == Put(CaseInsensitive, old(entries), name, value)
    {
      Erase(CaseInsensitive, name);
      Add(name, value);
    }

    method SetExact(name: bytes, value: bytes)
      modifies this
      ensures entries == Put(CaseSensitive, old(entries), name, value)
    {
      Erase(CaseSensitive, name);
      Add(name, value);
    }

    method FindBy(rule: Matching, name: bytes) returns (r: Option<bytes>)
      ensures r == Lookup(rule, entries, name)
    {
      hide Same;
      assert entries[0..] == entries;
      for i := 0 to |entries|
        invariant Lookup(rule, entries, name) == Lookup(rule, entries[i..], name)
      {
        assert entries[i..][0] == entries[i] && entries[i..][1..] == entries[i + 1..];
        if Same(rule, entries[i].name, name) {
          return Some(entries[i].value);
        }
      }
      r := None;
    }

    /** The first later field whose name an earlier one has, if any. */
    method FirstRepeatedName(rule: Matching) returns (r: Option<bytes>)
      ensures r.None? <==> NoRepeats(rule, entries)
      ensures r.Some? ==> exists i: nat, j: nat :: FirstRepeat(rule, entries, i, j) && r.value == entries[j].name
    {
      hide Same;
      for j := 0 to |entries|
        invariant NoRepeats(rule, entries[..j])
      {
        for i := 0 to j
          invariant forall k :: 0 <= k < i ==> !Same(rule, entries[k].name, entries[j].name)
        {
          if Same(rule, entries[i].name, entries[j].name) {
            assert FirstRepeat(rule, entries, i, j);
            return Some(entries[j].name);
          }
        }
      }
      assert entries[..|entries|] == entries;
      r := None;
    }

    /** `headers::adopt`: takes a delivered list over unless a name comes twice. */
    static method Adopt(delivered: RawHeaders, rule: Matching) returns (adopted: bool, fields: RawHeaders)
      ensures fresh(fields)
      ensures adopted <==> NoRepeats(rule, delivered.entries)
      ensures adopted ==> fields.entries == delivered.entries
    {
      hide Same;
      fields := new RawHeaders([]);
      for i := 0 to |delivered.entries|
        invariant fresh(fields)
        invariant fields.entries == delivered.entries[..i] && NoRepeats(rule, delivered.entries[..i])
      {
        var h := delivered.entries[i];
        var already := fields.FindBy(rule, h.name);
        LookupAbsent(rule, fields.entries, h.name);
        if already.Some? {
          var g :| g in fields.entries && Same(rule, g.name, h.name);
          var k :| 0 <= k < i && delivered.entries[..i][k] == g;
          assert Same(rule, delivered.entries[k].name, delivered.entries[i].name);
          return false, fields;
        }
        AppendHasNoRepeats(rule, delivered.entries, i);
        fields.Add(h.name, h.value);
        assert delivered.entries[..i + 1] == delivered.entries[..i] + [h];
      }
      assert delivered.entries[..|delivered.entries|] == delivered.entries;
      adopted := true;
    }
  }

  lemma {:induction false} WithoutUnfolds(rule: Matching, entries: seq<Header>, name: bytes, kept: seq<Header>)
    ensures kept + Without(rule, entries, name)
            == if entries == [] then kept
               else if Same(rule, entries[0].name, name) then kept + Without(rule, entries[1..], name)
               else kept + [entries[0]] + Without(rule, entries[1..], name)
  {
    hide Same;
  }

  lemma AppendHasNoRepeats(rule: Matching, entries: seq<Header>, i: nat)
    requires i < |entries| && NoRepeats(rule, entries[..i])
    requires forall h :: h in entries[..i] ==> !Same(rule, h.name, entries[i].name)
    ensures NoRepeats(rule, entries[..i + 1])
  {
    hide Same;
    var all := entries[..i + 1];
    forall k, j | 0 <= k < j < |all|
      ensures !Same(rule, all[k].name, all[j].name)
    {
      assert all[k] == entries[..i][k] && entries[..i][k] in entries[..i];
      if j < i {
        assert all[j] == entries[..i][j];
      }
    }
  }
}
