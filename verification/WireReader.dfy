/** The cursor that takes octets off the front of its input, and the loop over a message body built on it
    (include/cloudevents/format/detail/protobuf_wire.hpp, class reader; protobuf_format.hpp,
    for_each_field). Each is proved to do what Wire says of the octets. */
module WireReader {
  import opened Wrappers
  import opened Wire

  /** A group of seven bits with the groups after it. */
  function Grouped(low: nat, later: Result<Number>): Result<Number> {
    match later
    case Ok(n) => Ok(Number(low + 128 * n.value, 1 + n.length))
    case Err(e) => Err(e)
  }

  lemma VarintUnfolds(s: bytes, index: nat)
    requires index < MAX_VARINT_BYTES
    ensures s == [] ==> Varint(s, index) == Err(ParseError)
    ensures s != [] && index + 1 == MAX_VARINT_BYTES && s[0] > 1 ==> Varint(s, index) == Err(ParseError)
    ensures s != [] && !(index + 1 == MAX_VARINT_BYTES && s[0] > 1) ==>
              if s[0] < 128 then Varint(s, index) == Ok(Number(s[0] % 128, 1))
              else index + 1 < MAX_VARINT_BYTES && Varint(s, index) == Grouped(s[0] % 128, Varint(s[1..], index + 1))
  {
  }

  lemma SliceOfSlice(s: bytes, n: nat, m: nat)
    requires n + m <= |s|
    ensures s[n..][..m] == s[n..n + m] && s[n..][m..] == s[n + m..]
  {
  }

  /** Where the octets go on behind a value of the kind. */
  function AfterValue(s: bytes, kind: nat): (r: Result<bytes>)
    requires Skippable(kind)
  {
    if kind == 0 then
      var v :- Varint(s, 0);
      Ok(s[v.length..])
    else if kind == 2 then
      var size :- ReadBody(s);
      Ok(s[size.length + size.value..])
    else
      var width := if kind == 1 then 8 else 4;
      if width > |s| then Err(ParseError) else Ok(s[width..])
  }

  /** Passing over a value and reading it as a field succeed on the same octets and end at the same one. */
  lemma SkippedIsRead(s: bytes)
    requires ReadHeader(s).Ok?
    ensures var head := ReadHeader(s).value;
            var after := AfterValue(s[head.length..], head.kind);
            && (after.Ok? <==> ReadField(s).Ok?)
            && (after.Ok? ==> ReadField(s).value.rest == after.value)
  {
    hide Varint, ReadBody;
  }

  class Reader {
    var rest: bytes

    constructor (encoded: bytes)
      ensures rest == encoded
    {
      rest := encoded;
    }

    /** The varint so far, with the groups still to come scaled behind it. */
    ghost function Behind(value: nat, scale: nat, index: nat, later: Result<Number>): Result<Number> {
      match later
      case Ok(n) => Ok(Number(value + scale * n.value, index + n.length))
      case Err(e) => Err(e)
    }

    method ReadVarint() returns (r: Result<nat>)
      modifies this
      ensures match Varint(old(rest), 0) {
                case Ok(n) => r == Ok(n.value) && rest == old(rest)[n.length..]
                case Err(e) => r == Err(e)
              }
    {
      hide Varint;
      var value: nat, scale: nat, index: nat := 0, 1, 0;
      ghost var whole := Varint(rest, 0);
      while rest != []
        invariant index < MAX_VARINT_BYTES && index <= |old(rest)| && rest == old(rest)[index..]
        invariant whole == Behind(value, scale, index, Varint(rest, index))
        decreases |rest|
      {
        var b := rest[0];
        VarintUnfolds(rest, index);
        rest := rest[1..];
        if index + 1 == MAX_VARINT_BYTES && b > 1 {
          return Err(ParseError);
        }
        var low: nat := b % 128;
        if b < 128 {
          value := value + low * scale;
          return Ok(value);
        }
        GroupBehind(value, scale, index, low, Varint(rest, index + 1));
        value := value + low * scale;
        scale := scale * 128;
        index := index + 1;
      }
      VarintUnfolds(rest, index);
      r := Err(ParseError);
    }

    lemma GroupBehind(value: nat, scale: nat, index: nat, low: nat, later: Result<Number>)
      ensures Behind(value, scale, index, Grouped(low, later)) == Behind(value + low * scale, scale * 128, index + 1, later)
    {
      if later.Ok? {
        var n := later.value.value;
        assert scale * (low + 128 * n) == low * scale + scale * 128 * n;
      }
    }

    method ReadHead() returns (r: Result<Header>)
      modifies this
      ensures r == ReadHeader(old(rest))
      ensures r.Ok? ==> rest == old(rest)[r.value.length..]
    {
      var before := |rest|;
      var tag := ReadVarint();
      if tag.Err? {
        return Err(tag.error);
      }
      var number, kind := tag.value / 8, tag.value % 8;
      if number == 0 || number > MAX_FIELD_NUMBER {
        return Err(ParseError);
      }
      if !Skippable(kind) {
        return Err(ParseError);
      }
      r := Ok(Header(number, kind, before - |rest|));
    }

    method ReadLengthDelimited() returns (r: Result<bytes>)
      modifies this
      ensures match ReadBody(old(rest)) {
                case Ok(n) => r == Ok(old(rest)[n.length..n.length + n.value])
                              && rest == old(rest)[n.length + n.value..]
                case Err(e) => r == Err(e)
              }
    {
      hide Varint;
      ghost var whole := rest;
      var size := ReadVarint();
      if size.Err? {
        return Err(size.error);
      }
      if size.value > |rest| {
        return Err(ParseError);
      }
      SliceOfSlice(whole, |whole| - |rest|, size.value);
      r := Ok(rest[..size.value]);
      rest := rest[size.value..];
    }

    /** Moves past a value of any kind, which needs it to be whole. */
    method Skip(kind: nat) returns (failure: Option<Errc>)
      requires Skippable(kind)
      modifies this
      ensures match AfterValue(old(rest), kind) {
                case Ok(after) => failure == None && rest == after
                case Err(e) => failure == Some(e)
              }
    {
      hide Varint, ReadBody;
      if kind == 0 {
        var value := ReadVarint();
        return if value.Err? then Some(value.error) else None;
      }
      if kind == 2 {
        var body := ReadLengthDelimited();
        return if body.Err? then Some(body.error) else None;
      }
      var size := if kind == 1 then 8 else 4;
      if size > |rest| {
        return Some(ParseError);
      }
      rest := rest[size..];
      failure := None;
    }

    method Read() returns (r: Result<Option<Field>>)
      modifies this
      ensures match ReadField(old(rest)) {
                case Ok(step) => r == Ok(step.field) && rest == step.rest
                case Err(e) => r == Err(e)
              }
    {
      hide Varint, ReadHeader, ReadBody;
      RoomIsWidth();
      var head := ReadHead();
      if head.Err? {
        return Err(head.error);
      }
      var number := head.value.number;
      if head.value.kind == 0 {
        var value := ReadVarint();
        if value.Err? {
          return Err(value.error);
        }
        return Ok(Some(VarintField(number, value.value)));
      }
      if head.value.kind == 2 {
        var body := ReadLengthDelimited();
        if body.Err? {
          return Err(body.error);
        }
        return Ok(Some(LengthField(number, body.value)));
      }
      var skipped := Skip(head.value.kind);
      r := if skipped.None? then Ok(None) else Err(skipped.value);
    }
  }

  lemma WalkUnfolds<S>(visit: (S, Field) -> Result<S>, state: S, body: bytes)
    ensures body == [] ==> Walk(visit, state, body) == Ok(state)
    ensures body != [] ==>
              match ReadField(body) {
                case Err(e) => Walk(visit, state, body) == Err(e)
                case Ok(step) =>
                  match step.field
                  case None => Walk(visit, state, body) == Walk(visit, state, step.rest)
                  case Some(field) =>
                    match visit(state, field)
                    case Err(e) => Walk(visit, state, body) == Err(e)
                    case Ok(next) => Walk(visit, state, body) == Walk(visit, next, step.rest)
              }
  {
    hide ReadField;
    if body != [] {
      ReadFieldErrors(body);
      var fields := FieldsOf(body);
      if ReadField(body).Ok? && ReadField(body).value.field.Some? {
        assert fields.read[1..] == FieldsOf(ReadField(body).value.rest).read;
      }
    }
  }

  lemma ReadFieldErrors(body: bytes)
    ensures ReadField(body).Err? ==> ReadField(body).error == ParseError
  {
  }

  /** The loop over a message body: it ends in the state that folding the visitor over the fields gives, or
      in the first refusal, of the visitor or of the wire. */
  method ForEachField<S>(body: bytes, visit: (S, Field) -> Result<S>, start: S) returns (r: Result<S>)
    ensures r == Walk(visit, start, body)
  {
    hide Walk, ReadField;
    var reader := new Reader(body);
    var state := start;
    while reader.rest != []
      invariant Walk(visit, start, body) == Walk(visit, state, reader.rest)
      decreases |reader.rest|
    {
      WalkUnfolds(visit, state, reader.rest);
      ReadShortens(reader.rest);
      var current := reader.Read();
      if current.Err? {
        return Err(current.error);
      }
      if current.value.Some? {
        var visited := visit(state, current.value.value);
        if visited.Err? {
          return visited;
        }
        state := visited.value;
      }
    }
    WalkUnfolds(visit, state, []);
    r := Ok(state);
  }

  lemma ReadShortens(body: bytes)
    ensures ReadField(body).Ok? ==> |ReadField(body).value.rest| < |body|
  {
  }
}
