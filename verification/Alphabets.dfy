/** The sets of characters the formats are built on, each written out once and tied to the code that tells
    its members apart. */
module Alphabets {
  import opened Wrappers
  import Attributes
  import Base64
  import Percent
  import ProtobufDecode

  const UPPER := "ABCDEFGHIJKLMNOPQRSTUVWXYZ"
  const LOWER := "abcdefghijklmnopqrstuvwxyz"
  const DIGITS := "0123456789"

  /** The octet is the code of a character of the string. */
  predicate Among(c: byte, s: string) {
    exists i :: 0 <= i < |s| && s[i] as int == c
  }

  lemma LetterAt(i: nat)
    ensures i < 26 ==> UPPER[i] as int == 65 + i && LOWER[i] as int == 97 + i
    ensures i < 10 ==> DIGITS[i] as int == 48 + i
  {
    UpperAt(i);
    LowerAt(i);
  }

  lemma UpperAt(i: nat)
    ensures i < 26 ==> UPPER[i] as int == 65 + i
  {
  }

  lemma LowerAt(i: nat)
    ensures i < 26 ==> LOWER[i] as int == 97 + i
  {
  }

  lemma LettersAre(c: byte)
    ensures Among(c, UPPER) <==> 65 <= c <= 90
    ensures Among(c, LOWER) <==> 97 <= c <= 122
    ensures Among(c, DIGITS) <==> 48 <= c <= 57
  {
    forall i: nat {
      LetterAt(i);
    }
    assert 65 <= c <= 90 ==> UPPER[c - 65] as int == c;
    assert 97 <= c <= 122 ==> LOWER[c - 97] as int == c;
    assert 48 <= c <= 57 ==> DIGITS[c - 48] as int == c;
  }

  lemma AmongEither(c: byte, s: string, t: string)
    ensures Among(c, s + t) <==> Among(c, s) || Among(c, t)
  {
    if Among(c, s) {
      var i :| 0 <= i < |s| && s[i] as int == c;
      assert (s + t)[i] == s[i];
    }
    if Among(c, t) {
      var i :| 0 <= i < |t| && t[i] as int == c;
      assert (s + t)[|s| + i] == t[i];
    }
  }

  /** The characters of attribute names: lower-case letters and digits. */
  lemma NameCharacterExactly(c: byte)
    ensures Attributes.IsNameCharacter(c) <==> Among(c, LOWER + DIGITS)
  {
    AmongEither(c, LOWER, DIGITS);
    LettersAre(c);
  }

  const MARKS := "!#$%&'*+-.^_`|~"

  lemma MarksAre(c: byte)
    ensures Among(c, MARKS) <==> c in {33, 35, 36, 37, 38, 39, 42, 43, 45, 46, 94, 95, 96, 124, 126}
  {
    assert MARKS[0] as int == 33 && MARKS[1] as int == 35 && MARKS[2] as int == 36 && MARKS[3] as int == 37 && MARKS[4] as int == 38;
    assert MARKS[5] as int == 39 && MARKS[6] as int == 42 && MARKS[7] as int == 43 && MARKS[8] as int == 45 && MARKS[9] as int == 46;
    assert MARKS[10] as int == 94 && MARKS[11] as int == 95 && MARKS[12] as int == 96 && MARKS[13] as int == 124 && MARKS[14] as int == 126;
  }

  /** The characters of a token of a media type. */
  lemma TokenExactly(c: byte)
    ensures Attributes.IsToken(c) <==> Among(c, UPPER + LOWER + DIGITS + MARKS)
  {
    AmongEither(c, UPPER + LOWER + DIGITS, MARKS);
    AmongEither(c, UPPER + LOWER, DIGITS);
    AmongEither(c, UPPER, LOWER);
    LettersAre(c);
    MarksAre(c);
  }

  /** Case is that of ASCII letters alone. */
  lemma LowerExactly(c: byte)
    ensures forall i :: 0 <= i < 26 && UPPER[i] as int == c ==> Attributes.Lower(c) == LOWER[i] as int
    ensures !Among(c, UPPER) ==> Attributes.Lower(c) == c
  {
    forall i: nat {
      LetterAt(i);
    }
    LettersAre(c);
  }

  // Base64

  const BASE64 := UPPER + LOWER + DIGITS + "+/"

  lemma Base64At(v: Base64.sextet)
    ensures Base64.Character(v) == BASE64[v] as int
  {
    hide UPPER, LOWER, DIGITS;
    AlphabetSizes();
    InFour(UPPER, LOWER, DIGITS, "+/", v);
    LetterAt(if v < 26 then v else if v < 52 then v - 26 else if v < 62 then v - 52 else 0);
  }

  lemma AlphabetSizes()
    ensures |UPPER| == 26 && |LOWER| == 26 && |DIGITS| == 10
  {
  }

  lemma InFour(a: string, b: string, c: string, d: string, i: nat)
    requires i < |a| + |b| + |c| + |d|
    ensures (a + b + c + d)[i]
            == if i < |a| then a[i] else if i < |a| + |b| then b[i - |a|]
               else if i < |a| + |b| + |c| then c[i - |a| - |b|] else d[i - |a| - |b| - |c|]
  {
  }

  /** The alphabet of section 4 of RFC 4648: a character stands for its place in it, and no other octet for
      anything. */
  lemma Base64Exactly(c: byte, v: Base64.sextet)
    ensures |BASE64| == 64
    ensures Base64.Value(c) == v <==> BASE64[v] as int == c
    ensures Base64.Value(c) == Base64.NOT_IN_ALPHABET <==> !Among(c, BASE64)
  {
    Base64At(v);
    if Base64.Value(c) != Base64.NOT_IN_ALPHABET {
      Base64At(Base64.Value(c));
      Base64.CharacterOfValue(c);
      assert BASE64[Base64.Value(c)] as int == c;
    }
    forall i: Base64.sextet {
      Base64At(i);
    }
  }

  lemma SextetsAre(data: bytes)
    requires 1 <= |data| <= 3
    ensures Base64.SextetsOf(data)
            == Base64.Quantum(data[0], if |data| > 1 then data[1] else 0, if |data| > 2 then data[2] else 0)[..|data| + 1]
  {
    hide Base64.Quantum;
    if |data| == 3 {
      assert data[3..] == [];
      var q := Base64.Quantum(data[0], data[1], data[2]);
      assert q + [] == q && q[..4] == q;
    }
  }

  lemma QuantumAt(b: byte, c: byte)
    ensures var q := Base64.Quantum(102, b, c);
            q[0] == 25 && q[1] == 32 + b / 16 && q[2] == b % 16 * 4 + c / 64 && q[3] == c % 64
  {
  }

  lemma Firsts(q: seq<Base64.sextet>)
    requires |q| == 4
    ensures q[..2] == [q[0], q[1]] && q[..3] == [q[0], q[1], q[2]] && q[..4] == [q[0], q[1], q[2], q[3]]
  {
  }

  /** Three of the test vectors of section 10 of RFC 4648, one for each amount of padding. */
  lemma TestVectors()
    ensures Base64.Encode([102]) == [90, 103, 61, 61]
    ensures Base64.Encode([102, 111]) == [90, 109, 56, 61]
    ensures Base64.Encode([102, 111, 111]) == [90, 109, 57, 118]
  {
    hide Base64.SextetsOf, Base64.Quantum;
    SextetsAre([102]);
    SextetsAre([102, 111]);
    SextetsAre([102, 111, 111]);
    QuantumAt(0, 0);
    QuantumAt(111, 0);
    QuantumAt(111, 111);
    Firsts(Base64.Quantum(102, 0, 0));
    Firsts(Base64.Quantum(102, 111, 0));
    Firsts(Base64.Quantum(102, 111, 111));
    assert Base64.Characters([25, 32]) == [90, 103];
    assert Base64.Characters([25, 38, 60]) == [90, 109, 56];
    assert Base64.Characters([25, 38, 61, 47]) == [90, 109, 57, 118];
  }

  // Hexadecimal digits and percent escapes

  const UPPER_HEX := "0123456789ABCDEF"
  const LOWER_HEX := "0123456789abcdef"

  lemma HexAt(i: nat)
    ensures i < 16 ==> UPPER_HEX[i] as int == if i < 10 then 48 + i else 55 + i
    ensures i < 16 ==> LOWER_HEX[i] as int == if i < 10 then 48 + i else 87 + i
  {
  }

  /** A hexadecimal digit counts alike in either case. */
  lemma HexValueExactly(c: byte, v: nat)
    ensures Percent.HexValue(c) == Some(v) <==> v < 16 && (UPPER_HEX[v] as int == c || LOWER_HEX[v] as int == c)
  {
    HexAt(v);
  }

  /** Percent encoding leaves the printable characters but space, quote and percent as they are, and writes
      any other octet as a percent sign and its two upper-case digits. */
  lemma EscapedExactly(b: byte)
    ensures Percent.Encode([b])
            == if 33 <= b <= 126 && b != 34 && b != 37 then [b]
               else [37, UPPER_HEX[b / 16] as int, UPPER_HEX[b % 16] as int]
  {
    assert [b][1..] == [];
    HexAt(b / 16);
    HexAt(b % 16);
    assert Percent.Encode([b]) == Percent.EncodeByte(b) + Percent.Encode([]);
    assert Percent.EncodeByte(b) + [] == Percent.EncodeByte(b);
  }

  /** A text is encoded octet by octet. */
  lemma {:induction false} EscapedInParts(a: bytes, b: bytes)
    ensures Percent.Encode(a + b) == Percent.Encode(a) + Percent.Encode(b)
    decreases |a|
  {
    hide Percent.EncodeByte;
    if a == [] {
      assert a + b == b;
    } else {
      assert (a + b)[0] == a[0] && (a + b)[1..] == a[1..] + b;
      EscapedInParts(a[1..], b);
    }
  }

  /** A text that does not decode either spells no octets at all, or spells some that are not well-formed
      UTF-8. */
  lemma DecodingFailsExactly(text: bytes)
    ensures Percent.Decode(text).Err?
            ==> Percent.Decode(text).error == if exists out :: Percent.Spells(text, out) then InvalidUtf8 else ParseError
  {
    hide Percent.Unescape, Percent.Spells;
    UnescapingFails(text);
    if Percent.Unescape(text).Ok? {
      Percent.UnescapeExactly(text, Percent.Unescape(text).value);
    }
    if out :| Percent.Spells(text, out) {
      Percent.UnescapeExactly(text, out);
    }
  }

  lemma {:induction false} UnescapingFails(text: bytes)
    ensures Percent.Unescape(text).Err? ==> Percent.Unescape(text).error == ParseError
    decreases |text|
  {
    if text != [] {
      UnescapingFails(text[1..]);
      if |text| >= 3 {
        UnescapingFails(text[3..]);
      }
    }
  }

  // URI references

  const URI_MARKS := "-._~:/?#[]@!$&'()*+,;="

  lemma UriMarksAre(c: byte)
    ensures ProtobufDecode.IsUriPunctuation(c) <==> Among(c, URI_MARKS)
  {
    var marks := Ascii(URI_MARKS);
    if Among(c, URI_MARKS) {
      var i :| 0 <= i < |URI_MARKS| && URI_MARKS[i] as int == c;
      assert marks[i] == c;
    }
    if c in marks {
      var i :| 0 <= i < |marks| && marks[i] == c;
      assert URI_MARKS[i] as int == c;
    }
  }

  /** A text is a URI reference of the format exactly when it has at most one number sign, each percent sign
      stands before two hexadecimal digits, and each other octet is a letter, a digit or a mark. */
  lemma {:induction false} UriReferenceExactly(text: bytes)
    ensures ProtobufDecode.ValidUriReference(text)
            <==> (forall i :: 0 <= i < |text| ==> FitsUri(text, i)) && multiset(text)[35] <= 1
  {
    hide FitsUri;
    EscapesByPlace(text);
  }

  predicate FitsUri(text: bytes, i: nat)
    requires i < |text|
  {
    if text[i] == 37 then i + 2 < |text| && IsHex(text[i + 1]) && IsHex(text[i + 2])
    else Among(text[i], UPPER + LOWER + DIGITS + URI_MARKS)
  }

  predicate IsHex(c: byte) {
    Among(c, UPPER_HEX) || Among(c, LOWER_HEX)
  }

  lemma HexIs(c: byte)
    ensures IsHex(c) <==> ProtobufDecode.IsHexDigit(c)
  {
    forall i: nat {
      HexAt(i);
    }
    if ProtobufDecode.IsHexDigit(c) {
      var v := if c <= 57 then c - 48 else if c <= 70 then c - 55 else c - 87;
      assert UPPER_HEX[v] as int == c || LOWER_HEX[v] as int == c;
    }
  }

  lemma UriCharacterIs(c: byte)
    ensures Among(c, UPPER + LOWER + DIGITS + URI_MARKS) <==> ProtobufDecode.IsAlphanumeric(c) || ProtobufDecode.IsUriPunctuation(c)
    ensures ProtobufDecode.IsHexDigit(c) ==> ProtobufDecode.IsAlphanumeric(c) && c != 37
  {
    AmongEither(c, UPPER + LOWER + DIGITS, URI_MARKS);
    AmongEither(c, UPPER + LOWER, DIGITS);
    AmongEither(c, UPPER, LOWER);
    LettersAre(c);
    UriMarksAre(c);
  }

  lemma FitsUriLater(text: bytes, k: nat, i: nat)
    requires k <= i < |text|
    ensures FitsUri(text, i) <==> FitsUri(text[k..], i - k)
  {
    hide Among, IsHex;
  }

  lemma {:induction false} EscapesByPlace(text: bytes)
    ensures ProtobufDecode.WellEscaped(text) <==> forall i :: 0 <= i < |text| ==> FitsUri(text, i)
    decreases |text|
  {
    hide Among, IsHex, ProtobufDecode.IsHexDigit, ProtobufDecode.IsAlphanumeric, ProtobufDecode.IsUriPunctuation, FitsUri;
    if text != [] {
      var n := if text[0] == 37 && |text| >= 3 then 3 else 1;
      EscapesByPlace(text[n..]);
      FirstFits(text, n);
      LaterFit(text, n);
    }
  }

  lemma LaterFit(text: bytes, n: nat)
    requires n <= |text|
    ensures (forall i :: 0 <= i < |text[n..]| ==> FitsUri(text[n..], i)) <==> forall i :: n <= i < |text| ==> FitsUri(text, i)
  {
    hide FitsUri;
    if forall i :: 0 <= i < |text[n..]| ==> FitsUri(text[n..], i) {
      forall i | n <= i < |text|
        ensures FitsUri(text, i)
      {
        FitsUriLater(text, n, i);
        assert FitsUri(text[n..], i - n);
      }
    }
    if forall i :: n <= i < |text| ==> FitsUri(text, i) {
      forall i | 0 <= i < |text[n..]|
        ensures FitsUri(text[n..], i)
      {
        FitsUriLater(text, n, i + n);
        assert FitsUri(text, i + n);
      }
    }
  }

  lemma FirstFits(text: bytes, n: nat)
    requires text != [] && n == (if text[0] == 37 && |text| >= 3 then 3 else 1)
    ensures ProtobufDecode.WellEscaped(text)
            <==> (forall i :: 0 <= i < n ==> FitsUri(text, i)) && ProtobufDecode.WellEscaped(text[n..])
  {
    hide Among, IsHex, ProtobufDecode.IsHexDigit, ProtobufDecode.IsAlphanumeric, ProtobufDecode.IsUriPunctuation, FitsUri;
    if n == 3 {
      EscapeFits(text);
    } else {
      OneFits(text);
    }
  }

  lemma OneFits(text: bytes)
    requires text != [] && !(text[0] == 37 && |text| >= 3)
    ensures ProtobufDecode.WellEscaped(text) <==> FitsUri(text, 0) && ProtobufDecode.WellEscaped(text[1..])
    ensures (forall i :: 0 <= i < 1 ==> FitsUri(text, i)) <==> FitsUri(text, 0)
  {
    hide Among, IsHex, ProtobufDecode.IsHexDigit, ProtobufDecode.IsAlphanumeric, ProtobufDecode.IsUriPunctuation;
    UriCharacterIs(text[0]);
  }

  lemma EscapeFits(text: bytes)
    requires |text| >= 3 && text[0] == 37
    ensures (forall i :: 0 <= i < 3 ==> FitsUri(text, i)) <==> ProtobufDecode.IsHexDigit(text[1]) && ProtobufDecode.IsHexDigit(text[2])
  {
    hide Among, IsHex, ProtobufDecode.IsHexDigit, ProtobufDecode.IsAlphanumeric, ProtobufDecode.IsUriPunctuation;
    HexIs(text[1]);
    HexIs(text[2]);
    UriCharacterIs(text[1]);
    UriCharacterIs(text[2]);
    assert FitsUri(text, 0) <==> IsHex(text[1]) && IsHex(text[2]);
  }
}
