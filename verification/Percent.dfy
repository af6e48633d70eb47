/** Percent escaping of header values (include/cloudevents/binding/detail/percent.hpp): section 2.1 of
    RFC 3986, with the set of bytes the CloudEvents HTTP binding escapes. */
module Percent {
  import opened Wrappers
  import Utf8

  const ESCAPE: byte := '%' as int
  const QUOTE: byte := '"' as int

  predicate NeedsEscape(b: byte) {
    b < 0x21 || b > 0x7E || b == QUOTE || b == ESCAPE
  }

  function HexDigit(v: nat): (c: byte)
    requires v < 16
    ensures HexValue(c) == Some(v) && 0x21 <= c <= 0x7E && c != QUOTE && c != ESCAPE
  {
    if v < 10 then v + '0' as int else v - 10 + 'A' as int
  }

  function HexValue(c: byte): (v: Option<nat>)
    ensures v.Some? ==> v.value < 16
  {
    if '0' as int <= c <= '9' as int then Some(c - '0' as int)
    else if 'a' as int <= c <= 'f' as int then Some(c - 'a' as int + 10)
    else if 'A' as int <= c <= 'F' as int then Some(c - 'A' as int + 10)
    else None
  }

  function EncodeByte(b: byte): (s: bytes)
    ensures |s| == if NeedsEscape(b) then 3 else 1
  {
    if NeedsEscape(b) then [ESCAPE, HexDigit(b / 16), HexDigit(b % 16)] else [b]
  }

  function Encode(text: bytes): bytes {
    if text == [] then [] else EncodeByte(text[0]) + Encode(text[1..])
  }

  /** The octets an escaped text stands for, before they are checked to be UTF-8. */
  function Unescape(text: bytes): Result<bytes> {
    if text == [] then Ok([])
    else if text[0] != ESCAPE then
      var rest :- Unescape(text[1..]);
      Ok([text[0]] + rest)
    else if |text| < 3 then Err(ParseError)
    else
      var high, low := HexValue(text[1]), HexValue(text[2]);
      if high.None? || low.None? then Err(ParseError)
      else
        var rest :- Unescape(text[3..]);
        Ok([high.value * 16 + low.value] + rest)
  }

  function Decode(text: bytes): Result<bytes> {
    var out :- Unescape(text);
    if Utf8.Accepts(out) then Ok(out) else Err(InvalidUtf8)
  }

  function Prepend(out: bytes, r: Result<bytes>): Result<bytes> {
    match r
    case Ok(rest) => Ok(out + rest)
    case Err(e) => Err(e)
  }

  lemma UnescapeByte(b: byte, rest: bytes)
    ensures Unescape(EncodeByte(b) + rest) == Prepend([b], Unescape(rest))
  {
    hide NeedsEscape, HexDigit, HexValue;
    var s := EncodeByte(b) + rest;
    NotEscapedIsPlain(b);
    assert s[|EncodeByte(b)|..] == rest;
    if NeedsEscape(b) {
      assert HexValue(s[1]) == Some(b / 16) && HexValue(s[2]) == Some(b % 16);
    }
  }

  lemma {:induction false} UnescapeEncode(text: bytes)
    ensures Unescape(Encode(text)) == Ok(text)
  {
    hide EncodeByte;
    if text != [] {
      UnescapeEncode(text[1..]);
      UnescapeByte(text[0], Encode(text[1..]));
      assert text == [text[0]] + text[1..];
    }
  }

  lemma NotEscapedIsPlain(b: byte)
    ensures !NeedsEscape(b) ==> b != ESCAPE
  {
  }

  /** Decoding undoes encoding on exactly the well-formed texts. */
  lemma RoundTrip(text: bytes)
    ensures Decode(Encode(text)) == if Utf8.WellFormed(text) then Ok(text) else Err(InvalidUtf8)
  {
    UnescapeEncode(text);
  }

  /** The text spells the octets out one by one: an octet other than the percent sign as itself, any octet
      as a percent sign and its two hexadecimal digits in either case. */
  predicate Spells(text: bytes, out: bytes)
    decreases |out|
  {
    if out == [] then text == []
    else if text == [] then false
    else if text[0] != ESCAPE then text[0] == out[0] && Spells(text[1..], out[1..])
    else |text| >= 3 && HexValue(text[1]) == Some(out[0] / 16) && HexValue(text[2]) == Some(out[0] % 16)
         && Spells(text[3..], out[1..])
  }

  lemma {:induction false} UnescapeExactly(text: bytes, out: bytes)
    ensures Unescape(text) == Ok(out) <==> Spells(text, out)
    decreases |text|
  {
    hide HexValue;
    if text != [] {
      var n := if text[0] != ESCAPE || |text| < 3 then 1 else 3;
      var tail := if out == [] then [] else out[1..];
      UnescapeExactly(text[n..], tail);
      assert out != [] ==> out == [out[0]] + tail;
      if text[0] == ESCAPE && |text| >= 3 && HexValue(text[1]).Some? && HexValue(text[2]).Some? && out != [] {
        Nibbles(HexValue(text[1]).value, HexValue(text[2]).value, out[0]);
      }
    }
  }

  lemma Nibbles(high: nat, low: nat, b: nat)
    requires low < 16
    ensures b == high * 16 + low <==> b / 16 == high && b % 16 == low
  {
  }

  /** What a text decodes to, exactly: the well-formed octets that it spells. */
  lemma DecodesExactly(text: bytes, out: bytes)
    ensures Decode(text) == Ok(out) <==> Spells(text, out) && Utf8.WellFormed(out)
  {
    hide Unescape, Spells;
    UnescapeExactly(text, out);
    if Unescape(text).Ok? {
      UnescapeExactly(text, Unescape(text).value);
    }
  }

  /** Two texts decode alike exactly when what they decode to has one canonical encoding. */
  lemma Canonical(a: bytes, b: bytes)
    requires Decode(a).Ok? && Decode(b).Ok?
    ensures Decode(Encode(Decode(a).value)) == Decode(a)
    ensures Encode(Decode(a).value) == Encode(Decode(b).value) <==> Decode(a) == Decode(b)
  {
    RoundTrip(Decode(a).value);
    RoundTrip(Decode(b).value);
  }

  /** An encoding is printable ASCII without space or double quote. */
  lemma {:induction false} EncodedIsPrintable(text: bytes)
    ensures forall i :: 0 <= i < |Encode(text)| ==> 0x21 <= Encode(text)[i] <= 0x7E && Encode(text)[i] != QUOTE
  {
    if text != [] {
      EncodedIsPrintable(text[1..]);
    }
  }

  method PercentEncode(text: bytes) returns (out: bytes)
    ensures out == Encode(text)
  {
    hide Encode, NeedsEscape, HexDigit;
    out := [];
    for i := 0 to |text|
      invariant Encode(text) == out + Encode(text[i..])
    {
      var b := text[i];
      EncodeUnfolds(text[i..]);
      assert text[i..][1..] == text[i + 1..];
      if NeedsEscape(b) {
        out := out + [ESCAPE, HexDigit(b / 16), HexDigit(b % 16)];
      } else {
        out := out + [b];
      }
    }
    EncodeUnfolds([]);
  }

  lemma EncodeUnfolds(text: bytes)
    ensures Encode(text) == if text == [] then [] else EncodeByte(text[0]) + Encode(text[1..])
  {
    hide EncodeByte;
  }

  method PercentDecode(whole: bytes) returns (r: Result<bytes>)
    ensures r == Decode(whole)
  {
    hide HexValue;
    var text := whole;
    var out: bytes := [];
    PrependNothing(Unescape(whole));
    while text != []
      invariant Unescape(whole) == Prepend(out, Unescape(text))
      decreases |text|
    {
      ghost var before := out;
      if text[0] != ESCAPE {
        out := out + [text[0]];
        text := text[1..];
        PrependTwice(before, out[|before|..], Unescape(text));
        continue;
      }
      if |text| < 3 {
        return Err(ParseError);
      }
      var high, low := HexValue(text[1]), HexValue(text[2]);
      if high.None? || low.None? {
        return Err(ParseError);
      }
      out := out + [high.value * 16 + low.value];
      text := text[3..];
      PrependTwice(before, out[|before|..], Unescape(text));
    }
    assert out + [] == out;
    var valid := Utf8.IsValid(out);
    r := if valid then Ok(out) else Err(InvalidUtf8);
  }

  lemma PrependNothing(r: Result<bytes>)
    ensures Prepend([], r) == r
  {
    if r.Ok? {
      assert [] + r.value == r.value;
    }
  }

  lemma PrependTwice(a: bytes, b: bytes, r: Result<bytes>)
    ensures Prepend(a, Prepend(b, r)) == Prepend(a + b, r)
  {
    if r.Ok? {
      assert a + (b + r.value) == a + b + r.value;
    }
  }
}
