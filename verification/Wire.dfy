/** The Protocol Buffers wire format: varints, tags and length-delimited fields, read from and written to
    octets (include/cloudevents/format/detail/protobuf_wire.hpp), and the walk over the fields of a message
    (include/cloudevents/format/protobuf_format.hpp, read_field and for_each_field). */
module Wire {
  import opened Wrappers
  import opened Arithmetic

  const MAX_VARINT_BYTES := 10
  const MAX_FIELD_NUMBER := 0x1FFF_FFFF

  type uint64 = v: nat | v < WORD

  type fieldNumber = n: nat | 1 <= n <= MAX_FIELD_NUMBER witness 1

  // Varints

  /** What is left of 64 bits after some groups of seven: the tenth group has room for one bit. */
  function Room(index: nat): (r: nat)
    requires index < MAX_VARINT_BYTES
    ensures r > 0
    decreases MAX_VARINT_BYTES - index
  {
    if index == 9 then 2 else 128 * Room(index + 1)
  }

  lemma RoomIsWidth()
    ensures Room(0) == WORD
  {
    assert Room(5) == 0x2000_0000;
  }

  datatype Number = Number(value: nat, length: nat)

  /** The value of the groups from the given one on, lowest first, and how many octets carry it. */
  function Varint(s: bytes, index: nat): (r: Result<Number>)
    requires index < MAX_VARINT_BYTES
    ensures r.Ok? ==> 1 <= r.value.length <= |s| && r.value.value < Room(index)
    ensures r.Err? ==> r.error == ParseError
    decreases MAX_VARINT_BYTES - index
  {
    if s == [] then Err(ParseError)
    else if index + 1 == MAX_VARINT_BYTES && s[0] > 1 then Err(ParseError)
    else if s[0] < 128 then Ok(Number(s[0], 1))
    else
      var rest :- Varint(s[1..], index + 1);
      Ok(Number(s[0] % 128 + 128 * rest.value, 1 + rest.length))
  }

  function PutVarint(v: nat): (s: bytes)
    ensures s != []
  {
    if v > 127 then
      var group: byte := v % 128 + 128;
      [group] + PutVarint(v / 128)
    else
      var last: byte := v;
      [last]
  }

  /** A number of more than one group leaves room for its other groups. */
  lemma RoomIsSplit(v: nat, index: nat)
    requires index < MAX_VARINT_BYTES && v < Room(index)
    ensures v > 127 ==> index + 1 < MAX_VARINT_BYTES && v / 128 < Room(index + 1)
    ensures v <= 127 && index + 1 == MAX_VARINT_BYTES ==> v <= 1
  {
  }

  lemma {:induction false} VarintOfPut(v: nat, rest: bytes, index: nat)
    requires index < MAX_VARINT_BYTES && v < Room(index)
    ensures Varint(PutVarint(v) + rest, index) == Ok(Number(v, |PutVarint(v)|))
    decreases MAX_VARINT_BYTES - index
  {
    hide Room, Varint;
    RoomIsSplit(v, index);
    if v > 127 {
      VarintOfPut(v / 128, rest, index + 1);
      var group: byte := v % 128 + 128;
      Euclid(group, 1, v % 128, 128);
      assert PutVarint(v) + rest == [group] + (PutVarint(v / 128) + rest);
      VarintOfGroup(group, PutVarint(v / 128) + rest, index);
    } else {
      var last: byte := v;
      VarintOfLast(last, rest, index);
    }
  }

  lemma VarintOfGroup(group: byte, later: bytes, index: nat)
    requires group > 127 && index + 1 < MAX_VARINT_BYTES && Varint(later, index + 1).Ok?
    ensures var n := Varint(later, index + 1).value;
            Varint([group] + later, index) == Ok(Number(group % 128 + 128 * n.value, 1 + n.length))
  {
    hide Room;
    assert ([group] + later)[1..] == later;
  }

  lemma VarintOfLast(last: byte, rest: bytes, index: nat)
    requires last < 128 && index < MAX_VARINT_BYTES && (index + 1 == MAX_VARINT_BYTES ==> last <= 1)
    ensures Varint([last] + rest, index) == Ok(Number(last, 1))
  {
    hide Room;
  }

  lemma PutUnfolds(v: nat, before: bytes)
    ensures v > 127 ==> before + PutVarint(v) == before + [v % 128 + 128] + PutVarint(v / 128)
    ensures v <= 127 ==> before + PutVarint(v) == before + [v]
  {
    if v > 127 {
      var group: byte := v % 128 + 128;
      Regroup(before, group, PutVarint(v / 128));
    }
  }

  lemma Regroup(before: bytes, group: byte, after: bytes)
    ensures before + ([group] + after) == before + [group] + after
  {
  }

  method PutVarintLoop(v: nat) returns (out: bytes)
    ensures out == PutVarint(v)
  {
    var value := v;
    out := [];
    while value > 127
      invariant out + PutVarint(value) == PutVarint(v)
    {
      PutUnfolds(value, out);
      out := out + [value % 128 + 128];
      value := value / 128;
    }
    PutUnfolds(value, out);
    out := out + [value];
  }

  // Fields

  datatype Field = VarintField(number: fieldNumber, value: uint64) | LengthField(number: fieldNumber, body: bytes)

  /** The kinds whose length a reader can tell without a schema. */
  predicate Skippable(kind: nat) {
    kind == 0 || kind == 1 || kind == 2 || kind == 5
  }

  datatype Header = Header(number: fieldNumber, kind: nat, length: nat)

  function ReadHeader(s: bytes): (r: Result<Header>)
    ensures r.Ok? ==> 1 <= r.value.length <= |s| && Skippable(r.value.kind)
    ensures r.Err? ==> r.error == ParseError
  {
    var tag :- Varint(s, 0);
    var number, kind := tag.value / 8, tag.value % 8;
    if number == 0 || number > MAX_FIELD_NUMBER then Err(ParseError)
    else if !Skippable(kind) then Err(ParseError)
    else Ok(Header(number, kind, tag.length))
  }

  datatype Step = Step(field: Option<Field>, rest: bytes)

  function ReadBody(s: bytes): (r: Result<Number>)
    ensures r.Ok? ==> r.value.length + r.value.value <= |s|
    ensures r.Err? ==> r.error == ParseError
  {
    var size :- Varint(s, 0);
    if size.value > |s| - size.length then Err(ParseError) else Ok(size)
  }

  /** What the octets start with: a field and the octets after it, or no field where the value has a fixed
      width, which no message here uses. */
  function ReadField(s: bytes): (r: Result<Step>)
    ensures r.Ok? ==> |r.value.rest| < |s|
    ensures r.Err? ==> r.error == ParseError
  {
    var head :- ReadHeader(s);
    var after := s[head.length..];
    if head.kind == 0 then
      var v :- Varint(after, 0);
      RoomIsWidth();
      Ok(Step(Some(VarintField(head.number, v.value)), after[v.length..]))
    else if head.kind == 2 then
      var size :- ReadBody(after);
      Ok(Step(Some(LengthField(head.number, after[size.length..size.length + size.value])),
              after[size.length + size.value..]))
    else
      var width := if head.kind == 1 then 8 else 4;
      if width > |after| then Err(ParseError) else Ok(Step(None, after[width..]))
  }

  function PutTag(number: fieldNumber, kind: nat): bytes
    requires kind < 8
  {
    PutVarint(number * 8 + kind)
  }

  function PutVarintField(number: fieldNumber, value: uint64): bytes {
    PutTag(number, 0) + PutVarint(value)
  }

  function PutField(number: fieldNumber, body: bytes): bytes {
    PutTag(number, 2) + PutVarint(|body|) + body
  }

  lemma HeaderOfTag(number: fieldNumber, kind: nat, rest: bytes)
    requires Skippable(kind)
    ensures ReadHeader(PutTag(number, kind) + rest) == Ok(Header(number, kind, |PutTag(number, kind)|))
  {
    hide Varint, PutVarint, Room;
    RoomIsWidth();
    VarintOfPut(number * 8 + kind, rest, 0);
    Euclid(number * 8 + kind, number, kind, 8);
  }

  lemma FieldOfPutVarint(number: fieldNumber, value: uint64, rest: bytes)
    ensures ReadField(PutVarintField(number, value) + rest) == Ok(Step(Some(VarintField(number, value)), rest))
  {
    hide Varint, PutVarint, Room, ReadHeader, PutTag;
    var s := PutVarintField(number, value) + rest;
    assert s == PutTag(number, 0) + (PutVarint(value) + rest);
    HeaderOfTag(number, 0, PutVarint(value) + rest);
    RoomIsWidth();
    VarintOfPut(value, rest, 0);
  }

  lemma FieldOfPut(number: fieldNumber, body: bytes, rest: bytes)
    requires |body| < WORD
    ensures ReadField(PutField(number, body) + rest) == Ok(Step(Some(LengthField(number, body)), rest))
  {
    hide Varint, PutVarint, Room, ReadHeader, PutTag;
    var s := PutField(number, body) + rest;
    var after := PutVarint(|body|) + (body + rest);
    assert s == PutTag(number, 2) + after;
    HeaderOfTag(number, 2, after);
    RoomIsWidth();
    VarintOfPut(|body|, body + rest, 0);
    var n := |PutVarint(|body|)|;
    assert after[n..n + |body|] == body;
    assert after[n + |body|..] == rest;
  }

  // The walk over a message body

  /** The fields read in wire order, and whether the body ended where a field ended. */
  datatype Fields = Fields(read: seq<Field>, complete: bool)

  function FieldsOf(s: bytes): Fields
    decreases |s|
  {
    if s == [] then Fields([], true) else
    match ReadField(s)
    case Err(_) => Fields([], false)
    case Ok(step) =>
      var rest := FieldsOf(step.rest);
      if step.field.Some? then Fields([step.field.value] + rest.read, rest.complete) else rest
  }

  function Visits<S>(visit: (S, Field) -> Result<S>, start: S, fields: seq<Field>): Result<S> {
    if fields == [] then Ok(start) else
    match visit(start, fields[0])
    case Err(e) => Err(e)
    case Ok(next) => Visits(visit, next, fields[1..])
  }

  /** What for_each_field leaves behind: the first refusal of the visitor, or else the state after the
      last field, or else the malformed body. */
  function Walk<S>(visit: (S, Field) -> Result<S>, start: S, body: bytes): Result<S> {
    var fields := FieldsOf(body);
    match Visits(visit, start, fields.read)
    case Err(e) => Err(e)
    case Ok(end) => if fields.complete then Ok(end) else Err(ParseError)
  }
}
