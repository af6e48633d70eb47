/** Parsing and rendering undo each other (include/cloudevents/detail/timestamp.hpp). */
module TimestampLaws {
  import opened Wrappers
  import opened Arithmetic
  import opened Calendar
  import opened Decimal
  import opened Timestamp

  /** The values parsing can give: no offset beside the UTC designator, an offset below a day, a second
      the parser accepts and no digit beyond the digits kept. */
  predicate Exact(v: Timestamp) {
    && (v.form.UtcDesignator? ==> v.offset == 0)
    && -1439 <= v.offset <= 1439
    && -REPRESENTABLE <= v.utc / NANOS <= REPRESENTABLE
    && v.utc % NANOS % Pow10(MAX_FRACTIONAL_DIGITS - v.digits) == 0
  }

  // What was parsed

  lemma SubsecondIsExact(fraction: Option<bytes>)
    requires WellShapedFraction(fraction)
    ensures Subsecond(fraction) < NANOS
    ensures Subsecond(fraction) % Pow10(MAX_FRACTIONAL_DIGITS - DigitCount(fraction)) == 0
  {
    hide Pow10, Number, AllDigits;
    PlacesOfASecond();
    var d := DigitCount(fraction);
    if fraction.Some? {
      NumberBound(fraction.value);
      Pow10Sum(d, MAX_FRACTIONAL_DIGITS - d);
      Scaled(Number(fraction.value), Pow10(d), Pow10(MAX_FRACTIONAL_DIGITS - d));
    } else {
      Euclid(0, 0, 0, Pow10(MAX_FRACTIONAL_DIGITS));
    }
  }

  lemma ReadIsExact(f: Fields)
    requires WellShaped(f) && ReadFields(f).Ok?
    ensures Exact(ReadFields(f).value)
    ensures ReadFields(f).value.utc == (WrittenSeconds(f) - OffsetMinutes(f.zone) * 60) * NANOS + Subsecond(f.fraction)
  {
    hide Number, DaysOf, IsValidDate, Subsecond, Pow10;
    var v := ReadFields(f).value;
    SubsecondIsExact(f.fraction);
    Euclid(v.utc, WrittenSeconds(f) - OffsetMinutes(f.zone) * 60, Subsecond(f.fraction), NANOS);
  }

  /** Every accepted text gives an exact value. Its nanosecond count fits 64 bits: that is part of the
      type of the count, and parsing is proved to keep to it. */
  lemma ParsedIsExact(text: bytes)
    requires Parse(text).Ok?
    ensures Exact(Parse(text).value)
  {
    hide ReadFields, Match, Exact;
    LayoutOfMatch(text);
    ReadIsExact(Match(text).value);
  }

  // What was rendered

  function FieldsOf(v: Timestamp): Fields
    requires CanRender(v)
  {
    var c := ReadClock(Local(v));
    var date := DateOf(c.days);
    YearHasFourDigits(Local(v));
    var magnitude := if v.offset < 0 then -v.offset else v.offset;
    Fields(
      Pad(date.year, 4), Pad(date.month, 2), Pad(date.day, 2), UPPER_T,
      Pad(c.hours, 2), Pad(c.minutes, 2), Pad(c.seconds, 2),
      if v.digits > 0 then Some(Pad(c.nanos, MAX_FRACTIONAL_DIGITS)[..v.digits]) else None,
      if v.form.UtcDesignator? then Zulu(UPPER_Z)
      else Offset(if v.offset < 0 then DASH else PLUS, Pad(magnitude / 60, 2), Pad(magnitude % 60, 2)))
  }

  lemma FormatSmall(n: nat)
    ensures n < 100 ==> Format(n, 2) == Pad(n, 2)
    ensures n < 10_000 ==> Format(n, 4) == Pad(n, 4)
  {
    assert Pow10(2) == 100;
    assert Pow10(4) == 10_000;
  }

  lemma ExactOffset(v: Timestamp)
    requires Exact(v)
    ensures -1439 <= v.offset <= 1439
  {
  }

  lemma RenderIsLayout(v: Timestamp)
    requires CanRender(v) && -6000 < v.offset < 6000
    ensures WellShaped(FieldsOf(v)) && Render(v) == Layout(FieldsOf(v))
  {
    hide Format, Pad, DateOf, Pow10, IsDigit;
    var c := ReadClock(Local(v));
    var date := DateOf(c.days);
    YearHasFourDigits(Local(v));
    ClockDays(Local(v));
    FormatSmall(date.year);
    FormatSmall(date.month);
    FormatSmall(date.day);
    FormatSmall(c.hours);
    FormatSmall(c.minutes);
    FormatSmall(c.seconds);
    var magnitude := if v.offset < 0 then -v.offset else v.offset;
    FormatSmall(magnitude / 60);
    FormatSmall(magnitude % 60);
  }

  lemma SmallPowers()
    ensures Pow10(2) == 100 && Pow10(4) == 10_000 && Pow10(9) == NANOS
  {
    PlacesOfASecond();
  }

  lemma NumberOfSmall(n: nat)
    ensures n < 100 ==> Number(Pad(n, 2)) == n
    ensures n < 10_000 ==> Number(Pad(n, 4)) == n
  {
    SmallPowers();
    if n < 100 {
      NumberOfPad(n, 2);
    }
    if n < 10_000 {
      NumberOfPad(n, 4);
    }
  }

  lemma WholePlaces(nanos: nat, digits: digitCount)
    requires nanos < NANOS && nanos % Pow10(MAX_FRACTIONAL_DIGITS - digits) == 0
    ensures nanos / Pow10(MAX_FRACTIONAL_DIGITS - digits) < Pow10(digits)
    ensures nanos / Pow10(MAX_FRACTIONAL_DIGITS - digits) * Pow10(MAX_FRACTIONAL_DIGITS - digits) == nanos
  {
    hide Pow10;
    SmallPowers();
    Pow10Sum(digits, MAX_FRACTIONAL_DIGITS - digits);
    var p := Pow10(MAX_FRACTIONAL_DIGITS - digits);
    ProductGrows(nanos / p, Pow10(digits), p);
  }

  /** The shown digits of the nanoseconds give the nanoseconds back when no digit was cut off. */
  lemma SubsecondOfShown(nanos: nat, digits: digitCount)
    requires nanos < NANOS && nanos % Pow10(MAX_FRACTIONAL_DIGITS - digits) == 0
    ensures digits > 0 ==> Subsecond(Some(Pad(nanos, MAX_FRACTIONAL_DIGITS)[..digits])) == nanos
    ensures digits == 0 ==> nanos == 0
  {
    hide Pow10, Pad, Number, IsDigit;
    var q := nanos / Pow10(MAX_FRACTIONAL_DIGITS - digits);
    PadPrefix(nanos, MAX_FRACTIONAL_DIGITS, digits);
    WholePlaces(nanos, digits);
    NumberOfPad(q, digits);
    assert Pow10(0) == 1 by { Pow10Zero(); }
  }

  lemma Pow10Zero()
    ensures Pow10(0) == 1
  {
  }

  /** The seconds of the clock and of the instant are those of the local time and the offset. */
  lemma ClockSeconds(v: Timestamp)
    ensures var c := ReadClock(Local(v));
            && v.utc % NANOS == c.nanos
            && v.utc / NANOS == c.days * DAY_SECONDS + c.hours * 3600 + c.minutes * 60 + c.seconds - v.offset * 60
  {
    hide ReadClock;
    var c := ReadClock(Local(v));
    Euclid(v.utc, c.days * DAY_SECONDS + c.hours * 3600 + c.minutes * 60 + c.seconds - v.offset * 60, c.nanos, NANOS);
  }

  lemma FieldsRead(v: Timestamp)
    requires Exact(v) && CanRender(v) && WellShaped(FieldsOf(v))
    ensures ReadFields(FieldsOf(v)) == Ok(v)
  {
    hide Pad, Number, DateOf, DaysOf, IsValidDate, Pow10, ReadClock, AllDigits;
    var c := ReadClock(Local(v));
    var date := DateOf(c.days);
    var f := FieldsOf(v);
    YearHasFourDigits(Local(v));
    ClockDays(Local(v));
    ClockSeconds(v);
    DateOfIsValid(c.days);
    DateFits(date);
    NumberOfSmall(date.year);
    NumberOfSmall(date.month);
    NumberOfSmall(date.day);
    assert WrittenDate(f) == date;
    NumberOfSmall(c.hours);
    NumberOfSmall(c.minutes);
    NumberOfSmall(c.seconds);
    ZoneRead(v);
    SubsecondOfShown(c.nanos, v.digits);
    assert WrittenSeconds(f) - OffsetMinutes(f.zone) * 60 == v.utc / NANOS;
    assert Subsecond(f.fraction) == c.nanos;
    assert DigitCount(f.fraction) == v.digits;
    assert v.utc == v.utc / NANOS * NANOS + v.utc % NANOS;
  }

  lemma DateFits(d: Date)
    requires IsValidDate(d)
    ensures 1 <= d.month <= 12 && 1 <= d.day <= 31
  {
  }

  lemma ZoneRead(v: Timestamp)
    requires Exact(v) && CanRender(v) && WellShaped(FieldsOf(v))
    ensures OffsetMinutes(FieldsOf(v).zone) == v.offset && OffsetInRange(FieldsOf(v).zone)
  {
    hide Pad, Number, DateOf, Pow10, ReadClock, IsDigit;
    var magnitude := if v.offset < 0 then -v.offset else v.offset;
    NumberOfSmall(magnitude / 60);
    NumberOfSmall(magnitude % 60);
  }

  /** Parsing the rendering of an exact value gives the value back. */
  lemma RenderParses(v: Timestamp)
    requires Exact(v) && CanRender(v)
    ensures Parse(Render(v)) == Ok(v)
  {
    hide Render, Match, Layout, FieldsOf, ReadFields, Exact, WellShaped;
    ExactOffset(v);
    RenderIsLayout(v);
    MatchOfLayout(FieldsOf(v));
    FieldsRead(v);
  }

  /** The values that come back from their rendering are exactly the ones a text can give. */
  lemma RenderParsesExactly(v: Timestamp)
    requires CanRender(v)
    ensures Parse(Render(v)) == Ok(v) <==> Exact(v)
  {
    hide Render, Parse, Exact, CanRender;
    if Exact(v) {
      RenderParses(v);
    } else if Parse(Render(v)).Ok? {
      ParsedIsExact(Render(v));
    }
  }

  /** Five nanoseconds past the epoch, to be shown with no digits, come back as the epoch. */
  lemma HiddenNanosAreLost()
    ensures var v := Timestamp(5, 0, UtcDesignator, 0); CanRender(v) && Parse(Render(v)) != Ok(v)
  {
    hide Render, Parse;
    var v := Timestamp(5, 0, UtcDesignator, 0);
    SmallPowers();
    RenderParsesExactly(v);
  }

  /** For every accepted text whose value can be rendered, the rendering of what was parsed parses to the same instant, offset, form and digit count. */
  lemma RoundTrip(text: bytes)
    requires Parse(text).Ok? && CanRender(Parse(text).value)
    ensures Parse(Render(Parse(text).value)) == Parse(text)
  {
    hide *;
    ParsedIsExact(text);
    RenderParses(Parse(text).value);
  }

  // Which accepted texts can be rendered

  /** The written local time is one the clock can render, from 1677-09-22T00:00:00 to
      2262-04-11T23:47:16.854775807. */
  predicate WrittenOnClock(f: Fields)
    requires WellShaped(f)
  {
    && WrittenSeconds(f) >= -9_223_286_400
    && (WrittenSeconds(f) < 9_223_372_036
        || (WrittenSeconds(f) == 9_223_372_036 && Subsecond(f.fraction) <= 854_775_807))
  }

  lemma ClockEnds()
    ensures DaysOf(Date(1677, 9, 22)) * DAY_SECONDS == -9_223_286_400
    ensures DaysOf(Date(1677, 9, 21)) * DAY_SECONDS + 12 * 60 + 45 == -REPRESENTABLE
    ensures DaysOf(Date(2262, 4, 11)) * DAY_SECONDS + 23 * 3600 + 47 * 60 + 16 == 9_223_372_036
  {
  }

  /** Rendering stays in 64 bits exactly when the written local time lies between the first midnight the
      clock can hold and the clock's end. The parser checks the UTC time only, so a text near the ends can
      be accepted and yet not be renderable. */
  lemma CanRenderExactly(text: bytes)
    requires Parse(text).Ok?
    ensures var f := Match(text).value;
            WellShaped(f) && (CanRender(Parse(text).value) <==> WrittenOnClock(f))
  {
    hide Match, Number, DaysOf, Subsecond, Exact, IsValidDate;
    LayoutOfMatch(text);
    var f, v := Match(text).value, Parse(text).value;
    ReadIsExact(f);
    SubsecondIsExact(f.fraction);
    OffsetFits(v);
    LocalIsWritten(f);
    if FitsInt64(Local(v)) {
      MidnightFits(Local(v));
    }
  }

  /** The offset taken off in reading is added back in rendering. */
  lemma LocalIsWritten(f: Fields)
    requires WellShaped(f) && ReadFields(f).Ok?
    ensures Local(ReadFields(f).value) == WrittenSeconds(f) * NANOS + Subsecond(f.fraction)
  {
    hide Number, DaysOf, IsValidDate, Subsecond, Exact, WrittenSeconds;
    ReadIsExact(f);
    ReadAsWritten(f);
  }

  lemma OffsetFits(v: Timestamp)
    ensures Exact(v) ==> FitsInt64(v.offset * MINUTE)
  {
  }

  /** 1677-09-21T00:12:45Z: the first second accepted in UTC. It is on the clock, its midnight is not. */
  function BeforeTheClock(): Fields {
    Fields(Pad(1677, 4), Pad(9, 2), Pad(21, 2), UPPER_T, Pad(0, 2), Pad(12, 2), Pad(45, 2), None, Zulu(UPPER_Z))
  }

  lemma BeforeTheClockRead()
    ensures var f := BeforeTheClock();
            WellShaped(f) && ReadFields(f) == Ok(Timestamp(-REPRESENTABLE * NANOS, 0, UtcDesignator, 0))
  {
    hide Pad, Number, IsDigit;
    NumberOfSmall(1677);
    NumberOfSmall(9);
    NumberOfSmall(21);
    NumberOfSmall(0);
    NumberOfSmall(12);
    NumberOfSmall(45);
    assert WrittenDate(BeforeTheClock()) == Date(1677, 9, 21);
    ClockEnds();
  }

  lemma AcceptedBeforeTheClock()
    ensures var text := Layout(BeforeTheClock());
            Parse(text).Ok? && FitsInt64(Local(Parse(text).value)) && !CanRender(Parse(text).value)
  {
    hide Match, Layout, BeforeTheClock, ReadFields;
    BeforeTheClockRead();
    MatchOfLayout(BeforeTheClock());
    MidnightFits(-REPRESENTABLE * NANOS);
  }

  /** 2262-04-12T00:47:15+01:00: the last second accepted in UTC, written one hour ahead. */
  function PastTheClock(): Fields {
    Fields(Pad(2262, 4), Pad(4, 2), Pad(12, 2), UPPER_T, Pad(0, 2), Pad(47, 2), Pad(15, 2), None,
           Offset(PLUS, Pad(1, 2), Pad(0, 2)))
  }

  lemma PastTheClockRead()
    ensures var f := PastTheClock();
            && WellShaped(f) && WrittenSeconds(f) == 9_223_375_635 && OffsetMinutes(f.zone) == 60
            && ReadFields(f) == Ok(Timestamp(REPRESENTABLE * NANOS, 60, Numeric, 0))
  {
    hide Pad, Number, IsDigit;
    NumberOfSmall(2262);
    NumberOfSmall(4);
    NumberOfSmall(12);
    NumberOfSmall(0);
    NumberOfSmall(47);
    NumberOfSmall(15);
    NumberOfSmall(1);
    assert WrittenDate(PastTheClock()) == Date(2262, 4, 12);
    ClockEnds();
  }

  lemma AcceptedPastTheClock()
    ensures var text := Layout(PastTheClock()); Parse(text).Ok? && !FitsInt64(Local(Parse(text).value)) && !CanRender(Parse(text).value)
  {
    hide Match, Layout, PastTheClock, ReadFields;
    PastTheClockRead();
    MatchOfLayout(PastTheClock());
  }

  // When the rendering is the text itself

  lemma ClockOf(days: int, hours: nat, minutes: nat, seconds: nat, nanos: nat)
    requires hours < 24 && minutes < 60 && seconds < 60 && nanos < NANOS
    ensures ReadClock(days * DAY + hours * HOUR + minutes * MINUTE + seconds * NANOS + nanos)
            == Clock(days, hours, minutes, seconds, nanos)
  {
    var local := days * DAY + hours * HOUR + minutes * MINUTE + seconds * NANOS + nanos;
    Euclid(local, days, hours * HOUR + minutes * MINUTE + seconds * NANOS + nanos, DAY);
    Euclid(local % DAY, hours, minutes * MINUTE + seconds * NANOS + nanos, HOUR);
    Euclid(minutes * MINUTE + seconds * NANOS + nanos, minutes, seconds * NANOS + nanos, MINUTE);
    Euclid(seconds * NANOS + nanos, seconds, nanos, NANOS);
  }

  lemma ShownOfSubsecond(digits: bytes)
    requires 1 <= |digits| <= MAX_FRACTIONAL_DIGITS && AllDigits(digits)
    ensures Pad(Subsecond(Some(digits)), MAX_FRACTIONAL_DIGITS)[..|digits|] == digits
  {
    hide Pow10, Pad, Number, IsDigit;
    var p := Pow10(MAX_FRACTIONAL_DIGITS - |digits|);
    PadPrefix(Subsecond(Some(digits)), MAX_FRACTIONAL_DIGITS, |digits|);
    Euclid(Number(digits) * p, Number(digits), 0, p);
    PadOfNumber(digits);
  }

  predicate UpperCase(f: Fields) {
    f.separator == UPPER_T && (f.zone.Zulu? ==> f.zone.letter == UPPER_Z)
  }

  /** The offset -00:00, which is kept as a numeric zero and rendered +00:00. */
  predicate NegativeZero(z: Zone)
    requires WellShapedZone(z)
  {
    z.Offset? && z.sign == DASH && OffsetMinutes(z) == 0
  }

  lemma ZoneShown(z: Zone)
    requires WellShapedZone(z) && OffsetInRange(z) && z.Offset? && !NegativeZero(z)
    ensures var offset := OffsetMinutes(z);
            var magnitude := if offset < 0 then -offset else offset;
            z == Offset(if offset < 0 then DASH else PLUS, Pad(magnitude / 60, 2), Pad(magnitude % 60, 2))
  {
    hide Pad, Number, IsDigit;
    var hour, minute := Number(z.hour), Number(z.minute);
    Euclid(hour * 60 + minute, hour, minute, 60);
    PadOfNumber(z.hour);
    PadOfNumber(z.minute);
  }

  /** Upper case, no leap second, and an offset other than -00:00. */
  predicate Canonical(f: Fields)
    requires WellShaped(f)
  {
    UpperCase(f) && Number(f.second) <= 59 && !NegativeZero(f.zone)
  }

  /** The clock of what was read shows the fields that were written, when the second is no leap second. */
  lemma ClockShown(f: Fields)
    requires WellShaped(f) && ReadFields(f).Ok? && Number(f.second) <= 59
    ensures Number(f.hour) <= 23 && Number(f.minute) <= 59 && Subsecond(f.fraction) < NANOS
    ensures ReadClock(Local(ReadFields(f).value))
            == Clock(DaysOf(WrittenDate(f)), Number(f.hour), Number(f.minute), Number(f.second), Subsecond(f.fraction))
  {
    hide Number, DaysOf, IsValidDate, ReadClock, Subsecond, Local, ReadFields;
    LocalIsWritten(f);
    TimeInRange(f);
    SubsecondIsExact(f.fraction);
    SecondsSplit(DaysOf(WrittenDate(f)), Number(f.hour), Number(f.minute), Number(f.second));
    ClockOf(DaysOf(WrittenDate(f)), Number(f.hour), Number(f.minute), Number(f.second), Subsecond(f.fraction));
  }

  lemma TimeInRange(f: Fields)
    requires WellShaped(f) && ReadFields(f).Ok?
    ensures Number(f.hour) <= 23 && Number(f.minute) <= 59
  {
    hide Number, DaysOf, IsValidDate, Subsecond;
  }

  lemma SecondsSplit(days: int, hours: nat, minutes: nat, seconds: nat)
    ensures (days * DAY_SECONDS + hours * 3600 + minutes * 60 + seconds) * NANOS
            == days * DAY + hours * HOUR + minutes * MINUTE + seconds * NANOS
  {
  }

  lemma ReadAsWritten(f: Fields)
    requires WellShaped(f) && ReadFields(f).Ok?
    ensures var v := ReadFields(f).value;
            && v.digits == DigitCount(f.fraction) && v.form == (if f.zone.Zulu? then UtcDesignator else Numeric)
            && v.offset == OffsetMinutes(f.zone) && OffsetInRange(f.zone) && IsValidDate(WrittenDate(f))
  {
    hide Number, DaysOf, IsValidDate, Subsecond;
  }

  lemma FieldsShown(f: Fields)
    requires WellShaped(f) && ReadFields(f).Ok? && CanRender(ReadFields(f).value)
    requires Canonical(f)
    ensures FieldsOf(ReadFields(f).value) == f
  {
    hide Pad, Number, IsDigit, DateOf, DaysOf, IsValidDate, ReadClock, Subsecond, ReadFields, CanRender, Local, OffsetInRange;
    ReadAsWritten(f);
    ClockShown(f);
    DateOfDays(WrittenDate(f));
    PadOfNumber(f.year);
    PadOfNumber(f.month);
    PadOfNumber(f.day);
    PadOfNumber(f.hour);
    PadOfNumber(f.minute);
    PadOfNumber(f.second);
    if f.fraction.Some? {
      ShownOfSubsecond(f.fraction.value);
    }
    if f.zone.Offset? {
      ZoneShown(f.zone);
    }
  }

  lemma ShownIsCanonical(v: Timestamp)
    requires Exact(v) && CanRender(v) && WellShaped(FieldsOf(v))
    ensures Canonical(FieldsOf(v))
  {
    hide Pad, Number, IsDigit, DateOf;
    NumberOfSmall(ReadClock(Local(v)).seconds);
    ZoneRead(v);
  }

  /** An accepted text is its own rendering exactly when it is written in upper case, is no leap second
      and has an offset other than -00:00. */
  lemma RenderIsTextExactly(text: bytes)
    requires Parse(text).Ok? && CanRender(Parse(text).value)
    ensures var f := Match(text).value;
            WellShaped(f) && (Render(Parse(text).value) == text <==> Canonical(f))
  {
    hide Match, Layout, Render, FieldsOf, ReadFields, Exact, WellShaped, Canonical, CanRender;
    LayoutOfMatch(text);
    var f, v := Match(text).value, Parse(text).value;
    ParsedIsExact(text);
    ExactOffset(v);
    RenderIsLayout(v);
    ShownIsCanonical(v);
    MatchOfLayout(FieldsOf(v));
    if Canonical(f) {
      FieldsShown(f);
    }
  }
}
