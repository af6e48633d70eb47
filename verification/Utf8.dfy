/** UTF-8 validation (include/cloudevents/attributes.hpp) against sections 3 and 4 of RFC 3629. */
module Utf8 {
  import opened Wrappers

  // What a well-formed text is: a concatenation of shortest-form encodings of Unicode scalar values.

  predicate IsScalar(c: int) {
    0 <= c <= 0x10FFFF && !(0xD800 <= c <= 0xDFFF)
  }

  type scalar = c: int | 0 <= c <= 0x10FFFF && !(0xD800 <= c <= 0xDFFF)

  function Tail(x: nat): byte {
    0x80 + x % 64
  }

  function Encode(c: scalar): (s: bytes)
    ensures 1 <= |s| <= 4
  {
    if c < 0x80 then var b: byte := c; [b]
    else if c < 0x800 then var b: byte := 0xC0 + c / 64; [b, Tail(c)]
    else if c < 0x1_0000 then var b: byte := 0xE0 + c / 4096; [b, Tail(c / 64), Tail(c)]
    else var b: byte := 0xF0 + c / 262144; [b, Tail(c / 4096), Tail(c / 64), Tail(c)]
  }

  function EncodeAll(cs: seq<scalar>): bytes {
    if cs == [] then [] else Encode(cs[0]) + EncodeAll(cs[1..])
  }

  ghost predicate WellFormed(s: bytes) {
    exists cs: seq<scalar> :: EncodeAll(cs) == s
  }

  // The checks of the source. Its masks are written as divisions; see MasksAreDivisions.

  datatype Lead = Lead(length: nat, payload: nat)

  function ReadLead(lead: byte): Lead {
    if lead < 0x80 then Lead(1, lead)
    else if lead / 32 == 6 then Lead(2, lead % 32)
    else if lead / 16 == 14 then Lead(3, lead % 16)
    else if lead / 8 == 30 then Lead(4, lead % 8)
    else Lead(0, 0)
  }

  function Floor(length: nat): nat {
    if length == 2 then 0x80 else if length == 3 then 0x800 else 0x1_0000
  }

  predicate CodePointAllowed(length: nat, code: nat) {
    Floor(length) <= code <= 0x10FFFF && (code < 0xD800 || code > 0xDFFF)
  }

  predicate IsContinuation(b: byte) {
    b / 64 == 2
  }

  lemma MasksAreDivisions(b: bv8)
    ensures b & 0xE0 == 0xC0 <==> b / 32 == 6
    ensures b & 0xF0 == 0xE0 <==> b / 16 == 14
    ensures b & 0xF8 == 0xF0 <==> b / 8 == 30
    ensures b & 0xC0 == 0x80 <==> b / 64 == 2
    ensures b & 0x1F == b % 32 && b & 0x0F == b % 16 && b & 0x07 == b % 8 && b & 0x3F == b % 64
  {
  }

  /** The code point gathered from the continuation bytes, unless one of them is none. */
  function Gather(tail: bytes, code: nat): Option<nat> {
    if tail == [] then Some(code)
    else if !IsContinuation(tail[0]) then None
    else Gather(tail[1..], code * 64 + tail[0] % 64)
  }

  /** The first character of a text, if the text starts with one. */
  function First(s: bytes): (c: Option<nat>)
    requires s != []
  {
    var lead := ReadLead(s[0]);
    if lead.length == 0 || lead.length > |s| then None else
    var code := Gather(s[1..lead.length], lead.payload);
    if code.None? || (lead.length > 1 && !CodePointAllowed(lead.length, code.value)) then None else code
  }

  lemma GatherUnrolled(tail: bytes, code: nat)
    requires |tail| <= 3
    ensures Gather(tail, code) ==
            if exists i :: 0 <= i < |tail| && !IsContinuation(tail[i]) then None
            else if |tail| == 0 then Some(code)
            else if |tail| == 1 then Some(code * 64 + tail[0] % 64)
            else if |tail| == 2 then Some((code * 64 + tail[0] % 64) * 64 + tail[1] % 64)
            else Some(((code * 64 + tail[0] % 64) * 64 + tail[1] % 64) * 64 + tail[2] % 64)
  {
    if |tail| > 0 {
      GatherUnrolled(tail[1..], code * 64 + tail[0] % 64);
      if exists i :: 0 <= i < |tail| && !IsContinuation(tail[i]) {
        var i :| 0 <= i < |tail| && !IsContinuation(tail[i]);
        assert i > 0 ==> tail[1..][i - 1] == tail[i];
      }
    }
  }

  // The payload bits of a character are the base-64 digits of its code point, lead first.

  lemma TwoDigits(code: nat, a: nat, b: nat)
    requires b < 64
    ensures code == a * 64 + b <==> a == code / 64 && b == code % 64
  {
  }

  lemma ThreeDigits(code: nat, a: nat, b: nat, c: nat)
    requires b < 64 && c < 64
    ensures code == (a * 64 + b) * 64 + c <==> a == code / 4096 && b == code / 64 % 64 && c == code % 64
  {
    TwoDigits(code, a * 64 + b, c);
    TwoDigits(code / 64, a, b);
  }

  lemma FourDigits(code: nat, a: nat, b: nat, c: nat, d: nat)
    requires b < 64 && c < 64 && d < 64
    ensures code == ((a * 64 + b) * 64 + c) * 64 + d
            <==> a == code / 262144 && b == code / 4096 % 64 && c == code / 64 % 64 && d == code % 64
  {
    TwoDigits(code, (a * 64 + b) * 64 + c, d);
    ThreeDigits(code / 64, a, b, c);
  }

  /** What the checks accept as a first character is the shortest-form encoding of a scalar value. */
  lemma FirstIsEncoding(s: bytes)
    requires s != [] && First(s).Some?
    ensures IsScalar(First(s).value) && Encode(First(s).value) == s[..ReadLead(s[0]).length]
  {
    hide Gather, Encode, IsScalar, CodePointAllowed, IsContinuation;
    var lead := ReadLead(s[0]);
    if lead.length == 1 {
      OneIsEncoding(s);
    } else if lead.length == 2 {
      TwoAreEncoding(s);
    } else if lead.length == 3 {
      ThreeAreEncoding(s);
    } else {
      FourAreEncoding(s);
    }
  }

  lemma OneIsEncoding(s: bytes)
    requires s != [] && First(s).Some? && ReadLead(s[0]).length == 1
    ensures IsScalar(First(s).value) && Encode(First(s).value) == s[..1]
  {
  }

  lemma TwoAreEncoding(s: bytes)
    requires s != [] && First(s).Some? && ReadLead(s[0]).length == 2
    ensures IsScalar(First(s).value) && Encode(First(s).value) == s[..2]
  {
    hide Gather;
    var payload := ReadLead(s[0]).payload;
    GatherUnrolled(s[1..2], payload);
    TwoDigits(First(s).value, payload, s[1] % 64);
  }

  lemma ThreeAreEncoding(s: bytes)
    requires s != [] && First(s).Some? && ReadLead(s[0]).length == 3
    ensures IsScalar(First(s).value) && Encode(First(s).value) == s[..3]
  {
    hide Gather;
    var payload := ReadLead(s[0]).payload;
    GatherUnrolled(s[1..3], payload);
    assert s[1..3][0] == s[1] && s[1..3][1] == s[2];
    ThreeDigits(First(s).value, payload, s[1] % 64, s[2] % 64);
  }

  lemma FourAreEncoding(s: bytes)
    requires s != [] && First(s).Some? && ReadLead(s[0]).length == 4
    ensures IsScalar(First(s).value) && Encode(First(s).value) == s[..4]
  {
    hide Gather;
    var payload := ReadLead(s[0]).payload;
    GatherUnrolled(s[1..4], payload);
    assert s[1..4][0] == s[1] && s[1..4][1] == s[2] && s[1..4][2] == s[3];
    FourDigits(First(s).value, payload, s[1] % 64, s[2] % 64, s[3] % 64);
  }

  /** The lead byte of an encoding says its length, and its payload and the continuation bytes its character. */
  lemma EncodingIsRead(c: scalar)
    ensures var s := Encode(c);
            var lead := ReadLead(s[0]);
            && lead.length == |s| && Gather(s[1..], lead.payload) == Some(c)
            && (lead.length > 1 ==> CodePointAllowed(lead.length, c))
  {
    hide Gather;
    var s := Encode(c);
    LeadIsRead(c);
    GatherUnrolled(s[1..], ReadLead(s[0]).payload);
    TailIsRead(c);
  }

  lemma LeadIsRead(c: scalar)
    ensures var s := Encode(c);
            var lead := ReadLead(s[0]);
            && lead.length == |s| && (lead.length > 1 ==> CodePointAllowed(lead.length, c))
            && lead.payload == if |s| == 1 then c else if |s| == 2 then c / 64 else if |s| == 3 then c / 4096 else c / 262144
  {
  }

  lemma TailIsRead(c: scalar)
    ensures var s := Encode(c);
            && (forall i :: 1 <= i < |s| ==> IsContinuation(s[i]))
            && c == if |s| == 1 then c
                    else if |s| == 2 then c / 64 * 64 + s[1] % 64
                    else if |s| == 3 then (c / 4096 * 64 + s[1] % 64) * 64 + s[2] % 64
                    else ((c / 262144 * 64 + s[1] % 64) * 64 + s[2] % 64) * 64 + s[3] % 64
  {
    var s := Encode(c);
    if |s| == 2 {
      TwoDigits(c, c / 64, s[1] % 64);
    } else if |s| == 3 {
      ThreeDigits(c, c / 4096, s[1] % 64, s[2] % 64);
    } else if |s| == 4 {
      FourDigits(c, c / 262144, s[1] % 64, s[2] % 64, s[3] % 64);
    }
  }

  /** Every shortest-form encoding is accepted, whatever follows it. */
  lemma EncodingIsFirst(c: scalar, rest: bytes)
    ensures First(Encode(c) + rest) == Some(c) && ReadLead(Encode(c)[0]).length == |Encode(c)|
  {
    hide Encode, ReadLead, Gather, CodePointAllowed;
    EncodingIsRead(c);
    var s := Encode(c) + rest;
    assert s[0] == Encode(c)[0] && s[1..|Encode(c)|] == Encode(c)[1..];
  }

  // The whole text

  /** The decomposition of a well-formed text into characters is unique. */
  lemma {:induction false} EncodeAllInjective(a: seq<scalar>, b: seq<scalar>)
    requires EncodeAll(a) == EncodeAll(b)
    ensures a == b
  {
    if a != [] && b != [] {
      EncodingIsFirst(a[0], EncodeAll(a[1..]));
      EncodingIsFirst(b[0], EncodeAll(b[1..]));
      assert EncodeAll(a[1..]) == EncodeAll(a)[|Encode(a[0])|..];
      assert EncodeAll(b[1..]) == EncodeAll(b)[|Encode(b[0])|..];
      EncodeAllInjective(a[1..], b[1..]);
      assert a == [a[0]] + a[1..] && b == [b[0]] + b[1..];
    }
  }

  /** A text is well-formed exactly when it is empty, or starts with a character and is well-formed
      after it. */
  lemma {:induction false} WellFormedUnfolds(s: bytes)
    ensures WellFormed(s) <==> s == [] || (First(s).Some? && WellFormed(s[ReadLead(s[0]).length..]))
  {
    if WellFormed(s) && s != [] {
      var cs: seq<scalar> :| EncodeAll(cs) == s;
      EncodingIsFirst(cs[0], EncodeAll(cs[1..]));
      assert s[|Encode(cs[0])|..] == EncodeAll(cs[1..]);
    }
    if s == [] {
      assert EncodeAll([]) == s;
    }
    if s != [] && First(s).Some? && WellFormed(s[ReadLead(s[0]).length..]) {
      FirstIsEncoding(s);
      var c: scalar := First(s).value;
      var rest: seq<scalar> :| EncodeAll(rest) == s[ReadLead(s[0]).length..];
      assert ([c] + rest)[1..] == rest;
      assert EncodeAll([c] + rest) == s;
    }
  }

  /** The payload gathered by step i fits this: the 32-bit accumulator of the source never wraps. */
  function Room(length: nat, i: nat): (r: nat)
    requires 1 <= i <= length <= 4
    ensures r <= 0x20_0000
    ensures i < length ==> r * 64 <= Room(length, i + 1)
    decreases 4 - i
  {
    var lead := if length == 1 then 0x80 else if length == 2 then 0x20 else if length == 3 then 0x10 else 8;
    lead * (if i == 1 then 1 else if i == 2 then 64 else if i == 3 then 4096 else 262144)
  }

  lemma LeadFits(b: byte)
    ensures ReadLead(b).length > 0 ==> ReadLead(b).length <= 4 && ReadLead(b).payload < Room(ReadLead(b).length, 1)
  {
  }

  /** The inner loop of is_valid_utf8: the continuation bytes' bits join the payload, 32 bits being enough. */
  method GatherTail(tail: bytes, lead: Lead) returns (code: Option<nat>)
    requires 1 <= lead.length <= 4 && |tail| == lead.length - 1 && lead.payload < Room(lead.length, 1)
    ensures code == Gather(tail, lead.payload)
  {
    hide Room, IsContinuation;
    var gathered: nat := lead.payload;
    assert tail[0..] == tail;
    for i := 0 to |tail|
      invariant gathered < Room(lead.length, i + 1)
      invariant Gather(tail, lead.payload) == Gather(tail[i..], gathered)
    {
      assert tail[i..][0] == tail[i] && tail[i..][1..] == tail[i + 1..];
      if !IsContinuation(tail[i]) {
        return None;
      }
      assert Room(lead.length, i + 1) * 64 <= Room(lead.length, i + 2);
      gathered := gathered * 64 + tail[i] % 64;
    }
    code := Some(gathered);
  }

  /** is_valid_utf8: accepts exactly the concatenations of shortest-form encodings of scalar values. */
  method IsValid(text: bytes) returns (valid: bool)
    ensures valid <==> WellFormed(text)
  {
    hide WellFormed, Gather, ReadLead, Room, CodePointAllowed;
    var rest := text;
    while rest != []
      invariant WellFormed(rest) <==> WellFormed(text)
      decreases |rest|
    {
      WellFormedUnfolds(rest);
      var lead := ReadLead(rest[0]);
      if lead.length == 0 || lead.length > |rest| {
        return false;
      }
      LeadFits(rest[0]);
      var code := GatherTail(rest[1..lead.length], lead);
      if code.None? || (lead.length > 1 && !CodePointAllowed(lead.length, code.value)) {
        return false;
      }
      rest := rest[lead.length..];
    }
    WellFormedUnfolds(rest);
    valid := true;
  }

  lemma {:induction false} AsciiIsWellFormed(s: bytes)
    requires forall i :: 0 <= i < |s| ==> s[i] < 0x80
    ensures WellFormed(s)
  {
    WellFormedUnfolds(s);
    if s != [] {
      AsciiIsWellFormed(s[1..]);
    }
  }

  /** The check as a function, for the code that calls it. */
  predicate Accepts(s: bytes)
    ensures Accepts(s) <==> WellFormed(s)
    decreases |s|
  {
    WellFormedUnfolds(s);
    s == [] || (First(s).Some? && Accepts(s[ReadLead(s[0]).length..]))
  }
}
