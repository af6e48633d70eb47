/** RFC 3339 timestamps with nanosecond instants (include/cloudevents/detail/timestamp.hpp). */
module Timestamp {
  import opened Wrappers
  import opened Arithmetic
  import opened Calendar
  import opened Decimal

  const MAX_FRACTIONAL_DIGITS := 9
  const NANOS := 1_000_000_000
  const DAY_SECONDS := 86_400

  /** One second inside what 64-bit nanoseconds hold: the last second of the clock, less one. */
  const REPRESENTABLE := INT64_LIMIT / NANOS - 1

  datatype OffsetForm = UtcDesignator | Numeric

  /** utc counts nanoseconds since the epoch, offset counts minutes. */
  datatype Timestamp = Timestamp(utc: ticks, offset: int, form: OffsetForm, digits: digitCount)

  type digitCount = n: nat | n <= MAX_FRACTIONAL_DIGITS

  predicate FitsInt64(x: int) {
    -INT64_LIMIT <= x < INT64_LIMIT
  }

  /** A 64-bit count of nanoseconds. */
  type ticks = x: int | -INT64_LIMIT <= x < INT64_LIMIT

  // The text: one alternative of the source's regular expression per field.

  const DASH: byte := '-' as int
  const COLON: byte := ':' as int
  const DOT: byte := '.' as int
  const PLUS: byte := '+' as int
  const UPPER_T: byte := 'T' as int
  const LOWER_T: byte := 't' as int
  const UPPER_Z: byte := 'Z' as int
  const LOWER_Z: byte := 'z' as int

  datatype Zone = Zulu(letter: byte) | Offset(sign: byte, hour: bytes, minute: bytes)

  datatype Fields = Fields(
    year: bytes, month: bytes, day: bytes, separator: byte,
    hour: bytes, minute: bytes, second: bytes,
    fraction: Option<bytes>, zone: Zone)

  predicate Digits(s: bytes, count: nat) {
    |s| == count && AllDigits(s)
  }

  predicate WellShapedZone(z: Zone) {
    match z
    case Zulu(letter) => letter == UPPER_Z || letter == LOWER_Z
    case Offset(sign, hour, minute) => (sign == PLUS || sign == DASH) && Digits(hour, 2) && Digits(minute, 2)
  }

  predicate WellShaped(f: Fields) {
    && Digits(f.year, 4) && Digits(f.month, 2) && Digits(f.day, 2)
    && (f.separator == UPPER_T || f.separator == LOWER_T)
    && Digits(f.hour, 2) && Digits(f.minute, 2) && Digits(f.second, 2)
    && WellShapedFraction(f.fraction)
    && WellShapedZone(f.zone)
  }

  function HeadText(f: Fields): bytes {
    f.year + [DASH] + f.month + [DASH] + f.day + [f.separator] + f.hour + [COLON] + f.minute + [COLON] + f.second
  }

  function FractionText(fraction: Option<bytes>): bytes {
    if fraction.Some? then [DOT] + fraction.value else []
  }

  function ZoneText(z: Zone): bytes {
    match z
    case Zulu(letter) => [letter]
    case Offset(sign, hour, minute) => [sign] + hour + [COLON] + minute
  }

  function Layout(f: Fields): bytes {
    HeadText(f) + FractionText(f.fraction) + ZoneText(f.zone)
  }

  function MatchZone(text: bytes): Option<Zone> {
    if |text| == 1 && (text[0] == UPPER_Z || text[0] == LOWER_Z) then Some(Zulu(text[0]))
    else if |text| == 6 && (text[0] == PLUS || text[0] == DASH) && AllDigits(text[1..3]) && text[3] == COLON && AllDigits(text[4..])
    then Some(Offset(text[0], text[1..3], text[4..]))
    else None
  }

  /** The length of the run of digits a text starts with. */
  function DigitRun(text: bytes): (n: nat)
    ensures n <= |text| && AllDigits(text[..n]) && (n < |text| ==> !IsDigit(text[n]))
  {
    if text == [] || !IsDigit(text[0]) then 0 else 1 + DigitRun(text[1..])
  }

  function MatchFraction(text: bytes): Option<Option<bytes>> {
    if text == [] || text[0] != DOT then Some(None)
    else
      var n := DigitRun(text[1..]);
      if 1 <= n <= MAX_FRACTIONAL_DIGITS then Some(Some(text[1..1 + n])) else None
  }

  function MatchHead(text: bytes): Option<Fields> {
    if && |text| == 19
       && AllDigits(text[0..4]) && text[4] == DASH && AllDigits(text[5..7]) && text[7] == DASH && AllDigits(text[8..10])
       && (text[10] == UPPER_T || text[10] == LOWER_T)
       && AllDigits(text[11..13]) && text[13] == COLON && AllDigits(text[14..16]) && text[16] == COLON
       && AllDigits(text[17..19])
    then Some(Fields(text[0..4], text[5..7], text[8..10], text[10], text[11..13], text[14..16], text[17..19],
                     None, Zulu(UPPER_Z)))
    else None
  }

  /** The match of the whole text. A zone starts with no digit, so a fraction takes its whole run. */
  function Match(text: bytes): Option<Fields> {
    if |text| < 19 then None else
    var head, fraction := MatchHead(text[..19]), MatchFraction(text[19..]);
    if head.None? || fraction.None? then None else
    var zone := MatchZone(text[19 + |FractionText(fraction.value)|..]);
    if zone.None? then None else Some(head.value.(fraction := fraction.value, zone := zone.value))
  }

  lemma MatchZoneExactly(text: bytes, z: Zone)
    ensures MatchZone(text) == Some(z) <==> WellShapedZone(z) && ZoneText(z) == text
  {
    if MatchZone(text) == Some(z) {
      assert ZoneText(z) == text;
    }
    if WellShapedZone(z) && ZoneText(z) == text && z.Offset? {
      assert text[1..3] == z.hour && text[4..] == z.minute;
    }
  }

  lemma {:induction false} DigitRunOf(s: bytes, rest: bytes)
    requires AllDigits(s) && (rest != [] ==> !IsDigit(rest[0]))
    ensures DigitRun(s + rest) == |s|
  {
    if s == [] {
      assert s + rest == rest;
    } else {
      DigitRunOf(s[1..], rest);
      assert (s + rest)[1..] == s[1..] + rest;
    }
  }

  predicate WellShapedFraction(fraction: Option<bytes>) {
    fraction.Some? ==> 1 <= |fraction.value| <= MAX_FRACTIONAL_DIGITS && AllDigits(fraction.value)
  }

  lemma MatchFractionOf(fraction: Option<bytes>, rest: bytes)
    requires WellShapedFraction(fraction) && rest != [] && !IsDigit(rest[0]) && rest[0] != DOT
    ensures MatchFraction(FractionText(fraction) + rest) == Some(fraction)
  {
    hide DigitRun, AllDigits;
    if fraction.Some? {
      DigitRunOf(fraction.value, rest);
      BehindTheDot(fraction.value, rest);
    } else {
      assert FractionText(fraction) + rest == rest;
    }
  }

  lemma BehindTheDot(digits: bytes, rest: bytes)
    ensures var text := [DOT] + digits + rest;
            text[0] == DOT && text[1..] == digits + rest && text[1..1 + |digits|] == digits
  {
  }

  lemma MatchFractionFound(text: bytes)
    requires MatchFraction(text).Some?
    ensures WellShapedFraction(MatchFraction(text).value) && FractionText(MatchFraction(text).value) <= text
  {
    if text != [] && text[0] == DOT {
      var n := DigitRun(text[1..]);
      assert text[1..1 + n] == text[1..][..n];
      assert [DOT] + text[1..1 + n] == text[..1 + n];
    }
  }

  /** A head of the form, with the fields that follow it left open. */
  predicate SameHead(f: Fields, g: Fields) {
    f.(fraction := g.fraction, zone := g.zone) == g
  }

  lemma MatchHeadOf(f: Fields)
    requires WellShaped(f)
    ensures MatchHead(HeadText(f)) == Some(f.(fraction := None, zone := Zulu(UPPER_Z)))
  {
    var t := HeadText(f);
    assert t[0..4] == f.year && t[5..7] == f.month && t[8..10] == f.day;
    assert t[11..13] == f.hour && t[14..16] == f.minute && t[17..19] == f.second;
  }

  lemma MatchHeadFound(text: bytes)
    requires MatchHead(text).Some?
    ensures HeadText(MatchHead(text).value) == text && WellShaped(MatchHead(text).value)
  {
  }

  lemma {:induction false} MatchOfLayout(f: Fields)
    requires WellShaped(f)
    ensures Match(Layout(f)) == Some(f)
  {
    hide MatchHead, HeadText, MatchFraction, MatchZone, ZoneText, FractionText, Layout, WellShapedFraction, WellShapedZone;
    LayoutSlices(f);
    MatchHeadOf(f);
    ZoneStart(f.zone);
    MatchFractionOf(f.fraction, ZoneText(f.zone));
    MatchZoneExactly(ZoneText(f.zone), f.zone);
  }

  lemma {:induction false} LayoutSlices(f: Fields)
    requires WellShaped(f)
    ensures var text, k := Layout(f), 19 + |FractionText(f.fraction)|;
            && |text| >= k && text[..19] == HeadText(f)
            && text[19..] == FractionText(f.fraction) + ZoneText(f.zone) && text[19..][|FractionText(f.fraction)|..] == ZoneText(f.zone)
            && text[k..] == ZoneText(f.zone)
  {
    hide HeadText, ZoneText, FractionText;
    HeadLength(f);
  }

  lemma HeadLength(f: Fields)
    requires WellShaped(f)
    ensures |HeadText(f)| == 19
  {
  }

  lemma ZoneStart(z: Zone)
    requires WellShapedZone(z)
    ensures ZoneText(z) != [] && !IsDigit(ZoneText(z)[0]) && ZoneText(z)[0] != DOT
  {
  }

  lemma LayoutOfMatch(text: bytes)
    requires Match(text).Some?
    ensures WellShaped(Match(text).value) && Layout(Match(text).value) == text
  {
    hide MatchHead, HeadText, MatchFraction, MatchZone, ZoneText, FractionText;
    var f := Match(text).value;
    MatchHeadFound(text[..19]);
    MatchFractionFound(text[19..]);
    var k := 19 + |FractionText(f.fraction)|;
    MatchZoneExactly(text[k..], f.zone);
    HeadIgnoresTail(MatchHead(text[..19]).value, f);
    assert text == text[..19] + text[19..];
    assert text[19..] == FractionText(f.fraction) + text[k..];
  }

  lemma HeadIgnoresTail(f: Fields, g: Fields)
    requires SameHead(f, g)
    ensures HeadText(f) == HeadText(g)
  {
  }

  /** The match finds exactly the texts of the form, each with its fields. */
  lemma MatchExactly(text: bytes, f: Fields)
    ensures Match(text) == Some(f) <==> WellShaped(f) && Layout(f) == text
  {
    hide Match, Layout, WellShaped;
    if Match(text) == Some(f) {
      LayoutOfMatch(text);
    }
    if WellShaped(f) && Layout(f) == text {
      MatchOfLayout(f);
    }
  }

  // Parsing

  function WrittenDate(f: Fields): Date
    requires WellShaped(f)
  {
    Date(Number(f.year), Number(f.month), Number(f.day))
  }

  function TimeOfDay(f: Fields): nat
    requires WellShaped(f)
  {
    Number(f.hour) * 3600 + Number(f.minute) * 60 + Number(f.second)
  }

  /** The nanoseconds of the fraction: its digits count down from a tenth of a second. */
  function Subsecond(fraction: Option<bytes>): nat
    requires WellShapedFraction(fraction)
  {
    if fraction.None? then 0
    else Number(fraction.value) * Pow10(MAX_FRACTIONAL_DIGITS - |fraction.value|)
  }

  function DigitCount(fraction: Option<bytes>): digitCount
    requires WellShapedFraction(fraction)
  {
    if fraction.None? then 0 else |fraction.value|
  }

  function OffsetMinutes(z: Zone): int
    requires WellShapedZone(z)
  {
    match z
    case Zulu(_) => 0
    case Offset(sign, hour, minute) =>
      var minutes := Number(hour) * 60 + Number(minute);
      if sign == DASH then -minutes else minutes
  }

  predicate OffsetInRange(z: Zone)
    requires WellShapedZone(z)
  {
    z.Offset? ==> Number(z.hour) <= 23 && Number(z.minute) <= 59
  }

  /** The seconds of the written date and time, before the offset is taken off. */
  function WrittenSeconds(f: Fields): int
    requires WellShaped(f)
  {
    DaysOf(WrittenDate(f)) * DAY_SECONDS + TimeOfDay(f)
  }

  function ReadFields(f: Fields): Result<Timestamp>
    requires WellShaped(f)
  {
    if !IsValidDate(WrittenDate(f)) then Err(InvalidTimestamp)
    else if Number(f.hour) > 23 || Number(f.minute) > 59 then Err(InvalidTimestamp)
    else if Number(f.second) > 60 then Err(InvalidTimestamp)
    else if !OffsetInRange(f.zone) then Err(InvalidTimestamp)
    else
      var sinceEpoch := WrittenSeconds(f) - OffsetMinutes(f.zone) * 60;
      if sinceEpoch > REPRESENTABLE || sinceEpoch < -REPRESENTABLE then Err(OutOfRange)
      else
        SubsecondBelowOne(f.fraction);
        Ok(Timestamp(sinceEpoch * NANOS + Subsecond(f.fraction), OffsetMinutes(f.zone),
                     if f.zone.Zulu? then UtcDesignator else Numeric, DigitCount(f.fraction)))
  }

  lemma SubsecondBelowOne(fraction: Option<bytes>)
    requires WellShapedFraction(fraction)
    ensures Subsecond(fraction) < NANOS
  {
    hide Pow10, Number;
    PlacesOfASecond();
    if fraction.Some? {
      var d := |fraction.value|;
      NumberBound(fraction.value);
      Pow10Sum(d, MAX_FRACTIONAL_DIGITS - d);
      ProductGrows(Pow10(d), Number(fraction.value) + 1, Pow10(MAX_FRACTIONAL_DIGITS - d));
    }
  }

  function Parse(text: bytes): Result<Timestamp> {
    match Match(text)
    case None => Err(InvalidTimestamp)
    case Some(f) => LayoutOfMatch(text); ReadFields(f)
  }

  method ParseTimestamp(text: bytes) returns (r: Result<Timestamp>)
    ensures r == Parse(text)
  {
    hide Match, DaysOf, IsValidDate, Number, IsDigit, Pow10;
    var found := Match(text);
    if found.None? {
      return Err(InvalidTimestamp);
    }
    var f := found.value;
    LayoutOfMatch(text);
    var year := ToInt(f.year);
    var month := ToInt(f.month);
    var day := ToInt(f.day);
    var hour := ToInt(f.hour);
    var minute := ToInt(f.minute);
    var second := ToInt(f.second);
    if !IsValidDate(Date(year, month, day)) {
      return Err(InvalidTimestamp);
    }
    if hour > 23 || minute > 59 {
      return Err(InvalidTimestamp);
    }
    if second > 60 {
      return Err(InvalidTimestamp);
    }
    var subsecond := 0;
    if f.fraction.Some? {
      subsecond := ReadFraction(f.fraction.value);
    }
    var form := UtcDesignator;
    var offset := 0;
    if !f.zone.Zulu? {
      form := Numeric;
      var offsetHour := ToInt(f.zone.hour);
      var offsetMinute := ToInt(f.zone.minute);
      if offsetHour > 23 || offsetMinute > 59 {
        return Err(InvalidTimestamp);
      }
      offset := offsetHour * 60 + offsetMinute;
      if f.zone.sign == DASH {
        offset := -offset;
      }
    }
    var timeOfDay := hour * 3600 + minute * 60 + second;
    var sinceEpoch := DaysOf(Date(year, month, day)) * DAY_SECONDS + timeOfDay - offset * 60;
    if sinceEpoch > REPRESENTABLE || sinceEpoch < -REPRESENTABLE {
      return Err(OutOfRange);
    }
    SubsecondBelowOne(f.fraction);
    r := Ok(Timestamp(sinceEpoch * NANOS + subsecond, offset, form, DigitCount(f.fraction)));
  }

  /** Adds up the places of the fraction, each a tenth of the one before. */
  method ReadFraction(digits: bytes) returns (subsecond: nat)
    requires 1 <= |digits| <= MAX_FRACTIONAL_DIGITS && AllDigits(digits)
    ensures subsecond == Number(digits) * Pow10(MAX_FRACTIONAL_DIGITS - |digits|)
  {
    subsecond := 0;
    var place := NANOS / 10;
    PlacesOfASecond();
    for i := 0 to |digits|
      invariant subsecond == Number(digits[..i]) * Pow10(MAX_FRACTIONAL_DIGITS - i)
      invariant i < MAX_FRACTIONAL_DIGITS ==> place == Pow10(MAX_FRACTIONAL_DIGITS - 1 - i)
    {
      hide Pow10, Number;
      var digit := digits[i] - '0' as int;
      NextPlace(digits[..i], digits[i], MAX_FRACTIONAL_DIGITS - 1 - i);
      assert digits[..i + 1] == digits[..i] + [digits[i]];
      subsecond := subsecond + place * digit;
      place := place / 10;
    }
    assert digits[..|digits|] == digits;
  }

  lemma PlacesOfASecond()
    ensures Pow10(9) == NANOS && Pow10(8) == NANOS / 10
  {
    assert Pow10(5) == 100_000;
  }

  lemma NextPlace(digits: bytes, last: byte, n: nat)
    requires AllDigits(digits) && IsDigit(last)
    ensures Number(digits + [last]) * Pow10(n) == Number(digits) * Pow10(n + 1) + Pow10(n) * (last - '0' as int)
    ensures n > 0 ==> Pow10(n) / 10 == Pow10(n - 1)
  {
    hide IsDigit;
    assert (digits + [last])[..|digits|] == digits;
    var a, p, d := Number(digits), Pow10(n), last - '0' as int;
    assert (a * 10 + d) * p == a * (10 * p) + p * d;
  }

  // Rendering

  const DAY := DAY_SECONDS * NANOS
  const HOUR := 3600 * NANOS
  const MINUTE := 60 * NANOS

  function Local(v: Timestamp): int {
    v.utc + v.offset * MINUTE
  }

  /** What the fields of the clock read in the local time. */
  datatype Clock = Clock(days: int, hours: nat, minutes: nat, seconds: nat, nanos: nat)

  function ReadClock(local: int): (c: Clock)
    ensures local == c.days * DAY + c.hours * HOUR + c.minutes * MINUTE + c.seconds * NANOS + c.nanos
    ensures c.hours < 24 && c.minutes < 60 && c.seconds < 60 && c.nanos < NANOS
  {
    var sinceMidnight := local % DAY;
    var hours := sinceMidnight / HOUR;
    var minutes := (sinceMidnight - hours * HOUR) / MINUTE;
    var seconds := (sinceMidnight - hours * HOUR - minutes * MINUTE) / NANOS;
    Clock(local / DAY, hours, minutes, seconds, sinceMidnight - hours * HOUR - minutes * MINUTE - seconds * NANOS)
  }

  function RenderFraction(nanos: nat, digits: digitCount): bytes {
    if digits > 0 then [DOT] + Pad(nanos, MAX_FRACTIONAL_DIGITS)[..digits] else []
  }

  function RenderZone(v: Timestamp): bytes {
    if v.form.UtcDesignator? then [UPPER_Z] else
    var magnitude := if v.offset < 0 then -v.offset else v.offset;
    [if v.offset < 0 then DASH else PLUS] + Format(magnitude / 60, 2) + [COLON] + Format(magnitude % 60, 2)
  }

  /** Rendering has a defined result: the offset in nanoseconds, the local time and the midnight before it,
      which is subtracted from it, are all on the 64-bit clock. */
  predicate CanRender(v: Timestamp) {
    FitsInt64(v.offset * MINUTE) && FitsInt64(Local(v)) && FitsInt64(Local(v) / DAY * DAY)
  }

  /** The first midnight on the clock is that of 1677-09-22, most of a day after the clock begins. */
  lemma MidnightFits(local: int)
    requires FitsInt64(local)
    ensures FitsInt64(local / DAY * DAY) <==> local >= -106_751 * DAY
  {
  }

  function Render(v: Timestamp): bytes
    requires CanRender(v)
  {
    var c := ReadClock(Local(v));
    var date := DateOf(c.days);
    YearHasFourDigits(Local(v));
    Format(date.year, 4) + [DASH] + Format(date.month, 2) + [DASH] + Format(date.day, 2) + [UPPER_T]
    + Format(c.hours, 2) + [COLON] + Format(c.minutes, 2) + [COLON] + Format(c.seconds, 2)
    + RenderFraction(c.nanos, v.digits) + RenderZone(v)
  }

  lemma YearHasFourDigits(local: int)
    requires FitsInt64(local)
    ensures var date := DateOf(local / DAY); IsValidDate(date) && 1677 <= date.year <= 2262
  {
    hide YearStart, MonthStart, DaysInMonth, YearOf, MonthOf;
    var days := local / DAY;
    var date := DateOf(days);
    DateOfIsValid(days);
    InYear(date);
    DayNumbersOfClock(local);
    YearsGrow(date.year, 1677);
    YearsGrow(2262, date.year);
  }

  lemma DayNumbersOfClock(local: int)
    requires FitsInt64(local)
    ensures YearStart(1677) <= local / DAY < YearStart(2263)
  {
    assert -106752 <= local / DAY <= 106751;
  }

  /** `to_string`: nine digits are written from the last place back, and the first ones are shown. */
  method ToString(v: Timestamp) returns (text: bytes)
    requires CanRender(v)
    ensures text == Render(v)
  {
    hide ReadClock, DateOf, Format;
    var c := ReadClock(Local(v));
    var date := DateOf(c.days);
    YearHasFourDigits(Local(v));
    assert c.days == Local(v) / DAY by { ClockDays(Local(v)); }
    var fraction: bytes := [];
    if v.digits > 0 {
      var rendered := RenderNanos(c.nanos);
      fraction := [DOT] + rendered[..v.digits];
    }
    text := Format(date.year, 4) + [DASH] + Format(date.month, 2) + [DASH] + Format(date.day, 2) + [UPPER_T]
      + Format(c.hours, 2) + [COLON] + Format(c.minutes, 2) + [COLON] + Format(c.seconds, 2)
      + fraction + RenderZone(v);
  }

  lemma ClockDays(local: int)
    ensures ReadClock(local).days == local / DAY
  {
  }

  method RenderNanos(nanos: nat) returns (rendered: array<byte>)
    ensures fresh(rendered) && rendered[..] == Pad(nanos, MAX_FRACTIONAL_DIGITS)
  {
    rendered := new byte[MAX_FRACTIONAL_DIGITS](_ => 0);
    var remaining: nat := nanos;
    for i := MAX_FRACTIONAL_DIGITS downto 0
      invariant Pad(nanos, MAX_FRACTIONAL_DIGITS) == Pad(remaining, i) + rendered[i..]
    {
      rendered[i] := remaining % 10 + '0' as int;
      remaining := remaining / 10;
    }
  }
}
