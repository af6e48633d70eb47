/** The texts an attribute value is written as are well-formed UTF-8, except where the value is itself a
    text that is not. */
module RenderedText {
  import opened Wrappers
  import opened Attributes
  import opened Bindings
  import opened JsonFormat
  import opened Timestamp
  import Base64
  import Calendar
  import Decimal
  import Utf8

  predicate IsAscii(s: bytes) {
    forall i :: 0 <= i < |s| ==> s[i] < 0x80
  }

  lemma DigitsAreAscii(s: bytes)
    requires Decimal.AllDigits(s)
    ensures IsAscii(s)
  {
  }

  lemma CharacterIsAscii(v: Base64.sextet)
    ensures Base64.Character(v) < 0x80
  {
  }

  lemma EncodedIsAscii(octets: bytes)
    ensures IsAscii(Base64.Encode(octets))
  {
    hide Base64.Character, Base64.SextetsOf;
    var vs := Base64.SextetsOf(octets);
    forall i | 0 <= i < |vs|
      ensures Base64.Characters(vs)[i] < 0x80
    {
      CharacterIsAscii(vs[i]);
    }
  }

  lemma FractionIsAscii(nanos: nat, digits: digitCount)
    ensures IsAscii(RenderFraction(nanos, digits))
  {
    hide Decimal.Pad, Decimal.Pow10;
  }

  lemma ZoneIsAscii(v: Timestamp)
    ensures IsAscii(RenderZone(v))
  {
    hide Decimal.Format, Decimal.Pow10;
  }

  lemma TimeIsAscii(v: Timestamp)
    requires CanRender(v)
    ensures IsAscii(Render(v))
  {
    hide Decimal.Format, Decimal.Pow10, Calendar.DateOf, ReadClock, RenderFraction, RenderZone, Local;
    FractionIsAscii(ReadClock(Local(v)).nanos, v.digits);
    ZoneIsAscii(v);
    YearHasFourDigits(Local(v));
  }

  lemma TimeIsWellFormed(v: Timestamp)
    requires CanRender(v)
    ensures Utf8.WellFormed(Render(v))
  {
    hide Render, CanRender;
    TimeIsAscii(v);
    Utf8.AsciiIsWellFormed(Render(v));
  }

  /** Only a text that was set ill-formed is rendered ill-formed. */
  lemma RenderedIsWellFormed(v: AttributeValue)
    requires Renderable(v)
    ensures Utf8.WellFormed(RenderAttribute(v)) <==> (v.Text? || v.Uri? || v.UriRef? ==> Utf8.WellFormed(v.text))
  {
    hide Base64.Encode, Render, CanRender, Decimal.Plain;
    match v
    case Bool(held) => Utf8.AsciiIsWellFormed(RenderAttribute(v));
    case Integer(i) =>
      var signed: int := i;
      DigitsAreAscii(Decimal.Plain(if signed < 0 then -signed else signed));
      Utf8.AsciiIsWellFormed(RenderAttribute(v));
    case Binary(octets) =>
      EncodedIsAscii(octets);
      Utf8.AsciiIsWellFormed(RenderAttribute(v));
    case Instant(t) => TimeIsWellFormed(t);
    case _ =>
  }
}
