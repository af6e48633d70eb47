/** What any octets are on the Protocol Buffers wire, told from the octets themselves
    (include/cloudevents/format/detail/protobuf_wire.hpp; protobuf_format.hpp, read_field). */
module WireReads {
  import opened Wrappers
  import opened Arithmetic
  import opened Wire

  // Varints

  /** The sum of the low seven bits of each octet, the first counting least. */
  function GroupSum(s: bytes): nat {
    if s == [] then 0 else s[0] % 128 + 128 * GroupSum(s[1..])
  }

  /** One to ten octets, all but the last at 128 or above, that do not run over 64 bits. */
  ghost predicate IsVarint(s: bytes, v: nat) {
    IsVarintAfter(0, s, v)
  }

  ghost predicate IsVarintAfter(before: nat, s: bytes, v: nat) {
    && 1 <= |s| && before + |s| <= 10
    && (forall i :: 0 <= i < |s| - 1 ==> s[i] >= 128) && s[|s| - 1] < 128
    && (before + |s| == 10 ==> s[|s| - 1] <= 1)
    && v == GroupSum(s)
  }

  lemma OneGroup(before: nat, b: byte, v: nat)
    ensures IsVarintAfter(before, [b], v) <==> before < 10 && b < 128 && (before == 9 ==> b <= 1) && v == b
  {
    assert [b][1..] == [];
    assert GroupSum([b]) == b % 128;
  }

  lemma MoreGroups(before: nat, s: bytes, v: nat)
    requires |s| >= 2
    ensures IsVarintAfter(before, s, v)
            <==> s[0] >= 128 && IsVarintAfter(before + 1, s[1..], GroupSum(s[1..])) && v == s[0] % 128 + 128 * GroupSum(s[1..])
  {
    var rest := s[1..];
    assert rest[|rest| - 1] == s[|s| - 1];
    if s[0] >= 128 && forall i :: 0 <= i < |rest| - 1 ==> rest[i] >= 128 {
      forall i | 0 <= i < |s| - 1
        ensures s[i] >= 128
      {
        assert i > 0 ==> s[i] == rest[i - 1];
      }
    }
    assert forall i :: 0 <= i < |rest| - 1 ==> rest[i] == s[i + 1];
  }

  lemma {:induction false} VarintFrom(s: bytes, index: nat, n: nat, v: nat)
    requires index < MAX_VARINT_BYTES
    ensures Varint(s, index) == Ok(Number(v, n)) <==> n <= |s| && IsVarintAfter(index, s[..n], v)
    decreases MAX_VARINT_BYTES - index
  {
    hide IsVarintAfter, Room, GroupSum;
    if s == [] || n == 0 || n > |s| {
      TooShort(s, index, n, v);
    } else if n == 1 {
      assert s[..1] == [s[0]];
      OneGroup(index, s[0], v);
      OnlyOne(s, index, v);
    } else {
      MoreGroups(index, s[..n], v);
      assert s[..n][1..] == s[1..][..n - 1];
      if index + 1 < MAX_VARINT_BYTES {
        VarintFrom(s[1..], index + 1, n - 1, GroupSum(s[1..][..n - 1]));
        Onwards(s, index, n, v);
      } else {
        TooLong(index + 1, s[1..][..n - 1], GroupSum(s[1..][..n - 1]));
      }
    }
  }

  lemma TooShort(s: bytes, index: nat, n: nat, v: nat)
    requires index < MAX_VARINT_BYTES && (s == [] || n == 0 || n > |s|)
    ensures Varint(s, index) != Ok(Number(v, n)) && !(n <= |s| && IsVarintAfter(index, s[..n], v))
  {
  }

  lemma TooLong(before: nat, s: bytes, v: nat)
    requires before >= 10
    ensures !IsVarintAfter(before, s, v)
  {
  }

  lemma OnlyOne(s: bytes, index: nat, v: nat)
    requires index < MAX_VARINT_BYTES && s != []
    ensures Varint(s, index) == Ok(Number(v, 1)) <==> s[0] < 128 && (index == 9 ==> s[0] <= 1) && v == s[0]
  {
    hide Room;
  }

  lemma Onwards(s: bytes, index: nat, n: nat, v: nat)
    requires index + 1 < MAX_VARINT_BYTES && 2 <= n <= |s|
    requires var sum := GroupSum(s[1..][..n - 1]);
             Varint(s[1..], index + 1) == Ok(Number(sum, n - 1)) <==> IsVarintAfter(index + 1, s[1..][..n - 1], sum)
    ensures Varint(s, index) == Ok(Number(v, n))
            <==> s[0] >= 128 && IsVarintAfter(index + 1, s[1..][..n - 1], GroupSum(s[1..][..n - 1]))
                 && v == s[0] % 128 + 128 * GroupSum(s[1..][..n - 1])
  {
    hide Room, GroupSum;
    var rest := Varint(s[1..], index + 1);
    if rest.Ok? && rest.value.length == n - 1 {
      ValueIsSum(s[1..], index + 1);
    }
  }

  /** Whatever is read is the sum of the groups read. */
  lemma {:induction false} ValueIsSum(s: bytes, index: nat)
    requires index < MAX_VARINT_BYTES && Varint(s, index).Ok?
    ensures var n := Varint(s, index).value; n.value == GroupSum(s[..n.length])
    decreases MAX_VARINT_BYTES - index
  {
    hide Room;
    var n := Varint(s, index).value;
    if s[0] >= 128 {
      ValueIsSum(s[1..], index + 1);
      assert s[..n.length][1..] == s[1..][..n.length - 1];
    } else {
      assert s[..1][1..] == [];
    }
  }

  /** A varint is read exactly where there is one, from its own octets. */
  lemma VarintExactly(s: bytes, n: nat, v: nat)
    ensures Varint(s, 0) == Ok(Number(v, n)) <==> n <= |s| && IsVarint(s[..n], v)
  {
    VarintFrom(s, 0, n, v);
  }

  /** The writer writes no octet more than it must. */
  lemma {:induction false} WrittenIsShortest(v: nat)
    ensures |PutVarint(v)| > 1 ==> PutVarint(v)[|PutVarint(v)| - 1] != 0
  {
    if v > 127 {
      WrittenIsShortest(v / 128);
    }
  }

  // Fields

  /** The octets start with a tag of the number and kind. */
  ghost predicate StartsWithTag(s: bytes, n: nat, number: nat, kind: nat) {
    n <= |s| && 1 <= number <= 0x1FFF_FFFF && kind < 8 && IsVarint(s[..n], number * 8 + kind)
  }

  /** The octets after the tag start with the value of the kind, and go on as told. */
  ghost predicate StartsWithValue(after: bytes, number: nat, kind: nat, step: Step) {
    if kind == 0 then
      exists n: nat, v: nat ::
        n <= |after| && IsVarint(after[..n], v) && 1 <= number <= 0x1FFF_FFFF && v < 0x1_0000_0000_0000_0000
        && step == Step(Some(VarintField(number, v)), after[n..])
    else if kind == 2 then
      exists n: nat, size: nat ::
        n + size <= |after| && IsVarint(after[..n], size) && 1 <= number <= 0x1FFF_FFFF
        && step == Step(Some(LengthField(number, after[n..n + size])), after[n + size..])
    else if kind == 1 then 8 <= |after| && step == Step(None, after[8..])
    else kind == 5 && 4 <= |after| && step == Step(None, after[4..])
  }

  lemma HeaderExactly(s: bytes, h: Header)
    ensures ReadHeader(s) == Ok(h) <==> h.kind in {0, 1, 2, 5} && StartsWithTag(s, h.length, h.number, h.kind)
  {
    hide Varint, IsVarint;
    VarintExactly(s, h.length, h.number * 8 + h.kind);
    if h.kind < 8 {
      Euclid(h.number * 8 + h.kind, h.number, h.kind, 8);
    }
  }

  lemma ValueExactly(after: bytes, number: fieldNumber, kind: nat, step: Step)
    requires kind in {0, 1, 2, 5}
    ensures StepAfter(after, number, kind) == Ok(step) <==> StartsWithValue(after, number, kind, step)
  {
    hide Varint, IsVarint;
    if kind == 0 || kind == 2 {
      var read := Varint(after, 0);
      if read.Ok? {
        RoomIsWidth();
        VarintExactly(after, read.value.length, read.value.value);
      }
      forall n: nat, v: nat {
        VarintExactly(after, n, v);
      }
    }
  }

  /** What is behind the tag. */
  function StepAfter(after: bytes, number: fieldNumber, kind: nat): Result<Step> {
    if kind == 0 then
      var v :- Varint(after, 0);
      RoomIsWidth();
      Ok(Step(Some(VarintField(number, v.value)), after[v.length..]))
    else if kind == 2 then
      var size :- ReadBody(after);
      Ok(Step(Some(LengthField(number, after[size.length..size.length + size.value])), after[size.length + size.value..]))
    else
      var width := if kind == 1 then 8 else 4;
      if width > |after| then Err(ParseError) else Ok(Step(None, after[width..]))
  }

  lemma ReadFieldInTwo(s: bytes)
    ensures ReadHeader(s).Err? ==> ReadField(s).Err?
    ensures ReadHeader(s).Ok? ==>
              var h := ReadHeader(s).value; ReadField(s) == StepAfter(s[h.length..], h.number, h.kind)
  {
    hide Varint, ReadHeader;
  }

  /** What a field is on the wire: a tag of a number from 1 to 2^29 - 1, and behind it a varint, a length
      and as many octets, eight octets or four. A value of a fixed width is passed over; everything else is
      refused. */
  lemma FieldExactly(s: bytes, step: Step)
    ensures ReadField(s) == Ok(step)
            <==> exists n: nat, number: nat, kind: nat ::
                   n <= |s| && StartsWithTag(s, n, number, kind) && StartsWithValue(s[n..], number, kind, step)
    ensures ReadField(s).Err? ==> ReadField(s).error == ParseError
  {
    hide ReadField, StepAfter, ReadHeader, StartsWithTag, StartsWithValue;
    ReadFieldErrs(s);
    ReadFieldInTwo(s);
    if ReadField(s) == Ok(step) {
      var h := ReadHeader(s).value;
      HeaderExactly(s, h);
      ValueExactly(s[h.length..], h.number, h.kind, step);
      assert StartsWithTag(s, h.length, h.number, h.kind) && StartsWithValue(s[h.length..], h.number, h.kind, step);
    }
    forall n: nat, number: nat, kind: nat | n <= |s| && StartsWithTag(s, n, number, kind) && StartsWithValue(s[n..], number, kind, step)
      ensures ReadField(s) == Ok(step)
    {
      KindOfValue(s, n, number, kind, step);
      HeaderExactly(s, Header(number, kind, n));
      ValueExactly(s[n..], number, kind, step);
    }
  }

  lemma ReadFieldErrs(s: bytes)
    ensures ReadField(s).Err? ==> ReadField(s).error == ParseError
  {
  }

  lemma KindOfValue(s: bytes, n: nat, number: nat, kind: nat, step: Step)
    requires n <= |s| && StartsWithTag(s, n, number, kind) && StartsWithValue(s[n..], number, kind, step)
    ensures n <= |s| && 1 <= number <= MAX_FIELD_NUMBER && kind in {0, 1, 2, 5}
  {
    hide IsVarint;
  }

  // Messages in parts

  lemma {:induction false} VarintInFront(s: bytes, t: bytes, index: nat)
    requires index < MAX_VARINT_BYTES && Varint(s, index).Ok?
    ensures Varint(s + t, index) == Varint(s, index)
    decreases MAX_VARINT_BYTES - index
  {
    hide Room;
    if s[0] >= 128 {
      assert (s + t)[1..] == s[1..] + t;
      VarintInFront(s[1..], t, index + 1);
    }
  }

  lemma HeaderInFront(s: bytes, t: bytes)
    requires ReadHeader(s).Ok?
    ensures ReadHeader(s + t) == ReadHeader(s)
  {
    hide Varint;
    VarintInFront(s, t, 0);
  }

  lemma StepInFront(after: bytes, t: bytes, number: fieldNumber, kind: nat)
    requires StepAfter(after, number, kind).Ok?
    ensures var step := StepAfter(after, number, kind).value;
            StepAfter(after + t, number, kind) == Ok(Step(step.field, step.rest + t))
  {
    hide Varint;
    if kind == 0 || kind == 2 {
      VarintInFront(after, t, 0);
      var n := Varint(after, 0).value;
      assert (after + t)[n.length..] == after[n.length..] + t;
      if kind == 2 {
        Slices(after, t, n.length, n.value);
      }
    } else {
      var width := if kind == 1 then 8 else 4;
      assert (after + t)[width..] == after[width..] + t;
    }
  }

  lemma Slices(after: bytes, t: bytes, n: nat, size: nat)
    requires n + size <= |after|
    ensures (after + t)[n..n + size] == after[n..n + size] && (after + t)[n + size..] == after[n + size..] + t
  {
  }

  lemma FieldInFront(s: bytes, t: bytes)
    requires ReadField(s).Ok?
    ensures var step := ReadField(s).value; ReadField(s + t) == Ok(Step(step.field, step.rest + t))
  {
    hide ReadField, StepAfter, ReadHeader;
    ReadFieldInTwo(s);
    ReadFieldInTwo(s + t);
    HeaderInFront(s, t);
    var h := ReadHeader(s).value;
    StepInFront(s[h.length..], t, h.number, h.kind);
    assert (s + t)[h.length..] == s[h.length..] + t;
  }

  /** Behind a whole message another one goes on: the fields are those of the one and then of the other. */
  lemma {:induction false} FieldsJoin(s: bytes, t: bytes)
    requires FieldsOf(s).complete
    ensures FieldsOf(s + t) == Fields(FieldsOf(s).read + FieldsOf(t).read, FieldsOf(t).complete)
    decreases |s|
  {
    hide ReadField;
    if s == [] {
      assert s + t == t && [] + FieldsOf(t).read == FieldsOf(t).read;
    } else {
      var step := ReadField(s).value;
      FieldInFront(s, t);
      FieldsJoin(step.rest, t);
      if step.field.Some? {
        assert [step.field.value] + (FieldsOf(step.rest).read + FieldsOf(t).read)
               == [step.field.value] + FieldsOf(step.rest).read + FieldsOf(t).read;
      }
    }
  }
}
