/** The JSON value a codec works on, with the members of an object in order: `Set` replaces the first
    member of a name or appends one, `Find` gives the first (examples/custom_codec.cpp). */
module JsonDom {
  import opened Wrappers

  /** A double is carried as its bit pattern and only ever compared. */
  datatype Double = Double(bits: nat)

  datatype Json =
    | Null
    | Boolean(b: bool)
    | Number(i: int64)
    | Floating(d: Double)
    | Str(text: bytes)
    | Array(elements: seq<Json>)
    | Object(members: seq<Member>)

  datatype Member = Member(key: bytes, item: Json)

  type int64 = i: int | -0x8000_0000_0000_0000 <= i < 0x8000_0000_0000_0000

  type int32 = i: int | -0x8000_0000 <= i < 0x8000_0000

  /** What a codec adds to the values: a parser, a printer and the machine's int64-to-double cast. */
  datatype Codec = Codec(parse: bytes -> Result<Json>, dump: Json -> bytes, toDouble: int64 -> Double)

  /** The first member of the name, or the number of members. */
  function IndexOf(members: seq<Member>, key: bytes): (i: nat)
    ensures i <= |members|
    ensures i < |members| ==> members[i].key == key
    ensures forall j :: 0 <= j < i ==> members[j].key != key
  {
    if members == [] || members[0].key == key then 0 else 1 + IndexOf(members[1..], key)
  }

  function SetMember(members: seq<Member>, key: bytes, item: Json): seq<Member> {
    var i := IndexOf(members, key);
    if i < |members| then members[i := Member(key, item)] else members + [Member(key, item)]
  }

  function Set(value: Json, key: bytes, item: Json): Json
    requires value.Object?
  {
    Object(SetMember(value.members, key, item))
  }

  function Find(value: Json, key: bytes): Option<Json> {
    if !value.Object? then None else
    var i := IndexOf(value.members, key);
    if i < |value.members| then Some(value.members[i].item) else None
  }

  lemma SetNew(members: seq<Member>, key: bytes, item: Json)
    requires forall i :: 0 <= i < |members| ==> members[i].key != key
    ensures SetMember(members, key, item) == members + [Member(key, item)]
  {
  }
}
