/** What the checks on attribute texts accept and refuse, told without them
    (include/cloudevents/attributes.hpp). */
module TextChecks {
  import opened Wrappers
  import opened Attributes
  import Utf8

  // Media types

  ghost predicate Spaces(text: bytes) {
    forall i :: 0 <= i < |text| ==> text[i] == 32 || 9 <= text[i] <= 13
  }

  ghost predicate Tokens(text: bytes) {
    text != [] && forall i :: 0 <= i < |text| ==> IsToken(text[i])
  }

  /** The text, in its parts. */
  function MediaText(before: bytes, kind: bytes, subtype: bytes, after: bytes, rest: bytes): bytes {
    before + kind + [47] + subtype + after + rest
  }

  ghost predicate MediaParts(before: bytes, kind: bytes, subtype: bytes, after: bytes, rest: bytes) {
    Spaces(before) && Tokens(kind) && Tokens(subtype) && Spaces(after) && (rest != [] ==> rest[0] == 59)
  }

  /** The text is a media type of the subtype: two tokens around a slash, with spaces before and after, and
      then nothing or a semicolon and anything. */
  ghost predicate HasSubtype(text: bytes, subtype: bytes) {
    exists before, kind, after, rest ::
      MediaParts(before, kind, subtype, after, rest) && text == MediaText(before, kind, subtype, after, rest)
  }

  lemma {:induction false} SkipsSpaces(spaces: bytes, rest: bytes)
    requires Spaces(spaces) && (rest != [] ==> !IsSpace(rest[0]))
    ensures SkipSpaces(spaces + rest) == rest
    decreases |spaces|
  {
    if spaces == [] {
      assert spaces + rest == rest;
    } else {
      assert (spaces + rest)[1..] == spaces[1..] + rest;
      SkipsSpaces(spaces[1..], rest);
    }
  }

  lemma {:induction false} SkippedAre(text: bytes) returns (spaces: bytes)
    ensures Spaces(spaces) && text == spaces + SkipSpaces(text)
    decreases |text|
  {
    if text != [] && IsSpace(text[0]) {
      var more := SkippedAre(text[1..]);
      spaces := [text[0]] + more;
      assert text == [text[0]] + text[1..];
    } else {
      spaces := [];
    }
  }

  lemma {:induction false} RunIs(text: bytes)
    ensures var n := TokenRun(text);
            (forall i :: 0 <= i < n ==> IsToken(text[i])) && (n < |text| ==> !IsToken(text[n]))
  {
    hide IsToken;
    if text != [] && IsToken(text[0]) {
      RunIs(text[1..]);
      assert forall i :: 0 < i < TokenRun(text) ==> text[i] == text[1..][i - 1];
    }
  }

  lemma RunSplits(text: bytes)
    ensures var n := TokenRun(text);
            text == text[..n] + text[n..] && (n > 0 ==> Tokens(text[..n]))
  {
    hide IsToken, TokenRun;
    RunIs(text);
  }

  lemma PartsJoin(before: bytes, kind: bytes, subtype: bytes, after: bytes, rest: bytes)
    ensures before + (kind + ([47] + (subtype + (after + rest)))) == MediaText(before, kind, subtype, after, rest)
  {
  }

  lemma SubtypeIsThere(text: bytes)
    requires Subtype(text).Some?
    ensures HasSubtype(text, Subtype(text).value)
  {
    hide IsToken, SkipSpaces, TokenRun, MediaText, Tokens, Spaces;
    var body := SkipSpaces(text);
    var before := SkippedAre(text);
    var n := TokenRun(body);
    RunSplits(body);
    var named := body[n + 1..];
    assert body[n..] == [47] + named;
    var m := TokenRun(named);
    RunSplits(named);
    var rest := SkipSpaces(named[m..]);
    var after := SkippedAre(named[m..]);
    PartsJoin(before, body[..n], named[..m], after, rest);
    assert MediaParts(before, body[..n], named[..m], after, rest);
  }

  lemma TokenRunOf(kind: bytes, rest: bytes)
    requires Tokens(kind) && (rest != [] ==> !IsToken(rest[0]))
    ensures TokenRun(kind + rest) == |kind| && (kind + rest)[..|kind|] == kind && (kind + rest)[|kind|..] == rest
  {
    hide IsToken;
    TokenRunIs(kind + rest, |kind|);
  }

  lemma SeparatorsAre()
    ensures !IsToken(47) && !IsToken(59) && !IsSpace(59)
    ensures forall c: byte :: IsSpace(c) ==> !IsToken(c)
  {
  }

  lemma SubtypeOfParts(before: bytes, kind: bytes, subtype: bytes, after: bytes, rest: bytes)
    requires MediaParts(before, kind, subtype, after, rest)
    ensures Subtype(MediaText(before, kind, subtype, after, rest)) == Some(subtype)
  {
    hide IsToken, IsSpace, TokenRun, SkipSpaces, Tokens, Spaces, MediaText;
    SeparatorsAre();
    var tail := after + rest;
    var named := subtype + tail;
    var body := kind + ([47] + named);
    PartsJoin(before, kind, subtype, after, rest);
    TokenStarts(kind, [47] + named);
    SkipsSpaces(before, body);
    TokenRunOf(kind, [47] + named);
    BehindSlash(kind, named);
    SpacesStart(after, rest);
    TokenRunOf(subtype, tail);
    SkipsSpaces(after, rest);
    TokenStarts(subtype, tail);
  }

  lemma TokenStarts(token: bytes, rest: bytes)
    requires Tokens(token)
    ensures token != [] && token + rest != [] && (token + rest)[0] == token[0] && !IsSpace((token + rest)[0])
  {
    hide IsToken, IsSpace;
    TokenIsNoSpace(token[0]);
  }

  lemma BehindSlash(kind: bytes, named: bytes)
    ensures var body := kind + ([47] + named); |kind| < |body| && body[|kind|] == 47 && body[|kind| + 1..] == named
  {
  }

  lemma SpacesStart(after: bytes, rest: bytes)
    requires Spaces(after) && (rest != [] ==> rest[0] == 59)
    ensures after + rest != [] ==> !IsToken((after + rest)[0])
  {
    SeparatorsAre();
  }

  /** The subtype found is the one there is. */
  lemma SubtypeExactly(text: bytes, subtype: bytes)
    ensures Subtype(text) == Some(subtype) <==> HasSubtype(text, subtype)
  {
    hide Subtype, MediaParts, MediaText;
    if Subtype(text).Some? {
      SubtypeIsThere(text);
    }
    if HasSubtype(text, subtype) {
      var before, kind, after, rest :|
        MediaParts(before, kind, subtype, after, rest) && text == MediaText(before, kind, subtype, after, rest);
      SubtypeOfParts(before, kind, subtype, after, rest);
    }
  }

  /** A media type is a JSON one exactly when its subtype is json or ends in +json, in whatever case. */
  lemma JsonExactly(text: bytes)
    ensures IsJsonContentType(text)
            <==> exists subtype :: HasSubtype(text, subtype)
                                   && (EqualIgnoringCase(subtype, Ascii("json")) || EndsWithIgnoringCase(subtype, Ascii("+json")))
  {
    hide Subtype, HasSubtype, EqualIgnoringCase, EndsWithIgnoringCase, Ascii;
    forall subtype {
      SubtypeExactly(text, subtype);
    }
  }

  // Why a text is refused, if it is

  ghost function TextReason(text: bytes, empty: Errc): Option<Errc> {
    if text == [] then Some(empty) else if !Utf8.WellFormed(text) then Some(InvalidUtf8) else None
  }

  ghost function MediaTextReason(text: bytes): Option<Errc> {
    if TextReason(text, InvalidAttributeValue).Some? then TextReason(text, InvalidAttributeValue)
    else if !exists subtype :: HasSubtype(text, subtype) then Some(InvalidContentType)
    else None
  }

  function VersionTextReason(text: bytes): Option<Errc> {
    if text != Ascii("1.0") then Some(UnsupportedSpecVersion) else None
  }

  /** The text, unless there is a reason against it. */
  function Unless(reason: Option<Errc>, text: bytes): Result<bytes> {
    if reason.Some? then Err(reason.value) else Ok(text)
  }

  /** Each check gives the text back or the reason against it. */
  lemma ChecksExactly(text: bytes)
    ensures MakeRequired(text) == Unless(TextReason(text, MissingRequiredAttribute), text)
    ensures MakeOptional(text) == Unless(TextReason(text, InvalidAttributeValue), text)
    ensures MakeContentType(text) == Unless(MediaTextReason(text), text)
    ensures MakeVersion(text) == Unless(VersionTextReason(text), text)
  {
    hide Utf8.WellFormed, HasSubtype, Subtype, Ascii;
    if Subtype(text).Some? {
      SubtypeExactly(text, Subtype(text).value);
    }
    forall subtype {
      SubtypeExactly(text, subtype);
    }
  }

  /** Why a name is no extension's: it is not made of lower-case letters and digits, or it is reserved. */
  function NameReason(name: bytes): Option<Errc> {
    if name == [] || !forall i :: 0 <= i < |name| ==> 97 <= name[i] <= 122 || 48 <= name[i] <= 57 then Some(InvalidAttributeName)
    else if exists r: Reserved :: name == NameOf(r) then Some(ReservedAttributeName)
    else None
  }

  lemma NamesExactly(name: bytes)
    ensures MakeExtensionName(name) == Unless(NameReason(name), name)
  {
    hide NameOf;
    NameOfReserved(name);
    forall r: Reserved {
      ReservedAsName(r);
    }
  }

  /** The reserved names, spelled out. */
  lemma ReservedNamesAre()
    ensures NameOf(SpecVersion) == Ascii("specversion") && NameOf(Id) == Ascii("id") && NameOf(Source) == Ascii("source")
    ensures NameOf(Type) == Ascii("type") && NameOf(Subject) == Ascii("subject") && NameOf(Time) == Ascii("time")
    ensures NameOf(DataContentType) == Ascii("datacontenttype") && NameOf(DataSchema) == Ascii("dataschema")
    ensures NameOf(Data) == Ascii("data") && NameOf(DataBase64) == Ascii("data_base64")
  {
  }
}
