/** Which texts are timestamps and what each says, told from the octets at their places
    (include/cloudevents/detail/timestamp.hpp; section 5.6 of RFC 3339). */
module TimestampReads {
  import opened Wrappers
  import opened Arithmetic
  import opened Calendar
  import opened Decimal
  import opened Timestamp
  import TimestampLaws

  // The shape

  predicate DigitsAt(text: bytes, i: nat, n: nat)
    requires i + n <= |text|
  {
    forall k :: i <= k < i + n ==> 48 <= text[k] <= 57
  }

  /** yyyy-mm-ddThh:mm:ss, the T in either case. */
  predicate HeadByPlace(text: bytes)
    requires 19 <= |text|
  {
    && DigitsAt(text, 0, 4) && text[4] == 45 && DigitsAt(text, 5, 2) && text[7] == 45 && DigitsAt(text, 8, 2)
    && (text[10] == 84 || text[10] == 116)
    && DigitsAt(text, 11, 2) && text[13] == 58 && DigitsAt(text, 14, 2) && text[16] == 58 && DigitsAt(text, 17, 2)
  }

  /** From z on: a Z in either case, or a sign, hours, a colon and minutes. */
  predicate ZoneByPlace(text: bytes, z: nat)
    requires z < |text|
  {
    || (|text| == z + 1 && (text[z] == 90 || text[z] == 122))
    || (|text| == z + 6 && (text[z] == 43 || text[z] == 45) && DigitsAt(text, z + 1, 2) && text[z + 3] == 58 && DigitsAt(text, z + 4, 2))
  }

  /** The text is a date-time whose zone starts at z, behind a dot and one to nine digits or behind nothing. */
  predicate IsDateTime(text: bytes, z: nat) {
    && 19 <= z < |text| && HeadByPlace(text) && ZoneByPlace(text, z)
    && (z == 19 || (text[19] == 46 && 21 <= z <= 29 && DigitsAt(text, 20, z - 20)))
  }

  /** The fields at their places. */
  function FieldsAt(text: bytes, z: nat): Fields
    requires IsDateTime(text, z)
  {
    Fields(text[0..4], text[5..7], text[8..10], text[10], text[11..13], text[14..16], text[17..19],
           if z == 19 then None else Some(text[20..z]),
           if |text| == z + 1 then Zulu(text[z]) else Offset(text[z], text[z + 1..z + 3], text[z + 4..z + 6]))
  }

  lemma HeadIsText(text: bytes, z: nat)
    requires IsDateTime(text, z)
    ensures HeadText(FieldsAt(text, z)) == text[..19]
  {
  }

  lemma TailIsText(text: bytes, z: nat)
    requires IsDateTime(text, z)
    ensures FractionText(FieldsAt(text, z).fraction) == text[19..z] && ZoneText(FieldsAt(text, z).zone) == text[z..]
  {
  }

  lemma FieldsAreThere(text: bytes, z: nat)
    requires IsDateTime(text, z)
    ensures WellShaped(FieldsAt(text, z)) && Match(text) == Some(FieldsAt(text, z))
  {
    hide HeadText, FractionText, ZoneText, Match, FieldsAt, IsDateTime, WellShaped;
    var f := FieldsAt(text, z);
    HeadIsText(text, z);
    TailIsText(text, z);
    ShapeIsRight(text, z);
    ZoneIsInside(text, z);
    assert text == text[..19] + text[19..z] + text[z..];
    MatchOfLayout(f);
  }

  lemma ZoneIsInside(text: bytes, z: nat)
    requires IsDateTime(text, z)
    ensures 19 <= z < |text|
  {
  }

  lemma ShapeIsRight(text: bytes, z: nat)
    requires IsDateTime(text, z)
    ensures WellShaped(FieldsAt(text, z))
  {
  }

  lemma PlacesOfHead(f: Fields)
    requires WellShaped(f)
    ensures |HeadText(f)| == 19 && HeadByPlace(HeadText(f))
  {
    var t := HeadText(f);
    assert t[0..4] == f.year && t[5..7] == f.month && t[8..10] == f.day;
    assert t[11..13] == f.hour && t[14..16] == f.minute && t[17..19] == f.second;
  }

  lemma HeadIsAtFront(head: bytes, rest: bytes)
    requires |head| == 19 && HeadByPlace(head)
    ensures HeadByPlace(head + rest)
  {
  }

  lemma PlacesOfTail(head: bytes, fraction: Option<bytes>, zone: Zone)
    requires |head| == 19 && WellShapedFraction(fraction) && WellShapedZone(zone)
    ensures var text, z := head + FractionText(fraction) + ZoneText(zone), 19 + |FractionText(fraction)|;
            && 19 <= z < |text| && ZoneByPlace(text, z)
            && (z == 19 || (text[19] == 46 && 21 <= z <= 29 && DigitsAt(text, 20, z - 20)))
  {
  }

  lemma PlacesOfLayout(f: Fields)
    requires WellShaped(f)
    ensures IsDateTime(Layout(f), 19 + |FractionText(f.fraction)|)
  {
    hide HeadText, HeadByPlace, ZoneByPlace, FractionText, ZoneText, WellShapedZone, WellShapedFraction;
    PlacesOfHead(f);
    HeadIsAtFront(HeadText(f), FractionText(f.fraction) + ZoneText(f.zone));
    assert Layout(f) == HeadText(f) + (FractionText(f.fraction) + ZoneText(f.zone));
    PlacesOfTail(HeadText(f), f.fraction, f.zone);
  }

  /** A text is matched exactly when it is a date-time by its places, with one place for the zone. */
  lemma MatchedByPlace(text: bytes)
    ensures Match(text).Some? <==> exists z: nat :: IsDateTime(text, z)
    ensures forall z: nat :: IsDateTime(text, z) ==> Match(text) == Some(FieldsAt(text, z))
    ensures forall y: nat, z: nat :: IsDateTime(text, y) && IsDateTime(text, z) ==> y == z
  {
    hide Match, Layout, WellShaped, IsDateTime, FieldsAt;
    if Match(text).Some? {
      LayoutOfMatch(text);
      PlacesOfLayout(Match(text).value);
    }
    forall z: nat | IsDateTime(text, z)
      ensures Match(text) == Some(FieldsAt(text, z))
    {
      FieldsAreThere(text, z);
    }
    forall y: nat, z: nat | IsDateTime(text, y) && IsDateTime(text, z)
      ensures y == z
    {
      OneZone(text, y, z);
    }
  }

  lemma OneZone(text: bytes, y: nat, z: nat)
    requires IsDateTime(text, y) && IsDateTime(text, z)
    ensures y == z
  {
    hide IsDateTime;
    ZoneStarts(text, y);
    ZoneStarts(text, z);
    if y < z {
      FractionBefore(text, z, y);
    } else if z < y {
      FractionBefore(text, y, z);
    }
  }

  lemma ZoneStarts(text: bytes, z: nat)
    requires IsDateTime(text, z)
    ensures 19 <= z < |text| && text[z] in {90, 122, 43, 45}
  {
  }

  lemma FractionBefore(text: bytes, z: nat, i: nat)
    requires IsDateTime(text, z) && 19 <= i < z
    ensures text[i] == 46 || 48 <= text[i] <= 57
  {
    hide HeadByPlace, ZoneByPlace;
  }

  // The numbers

  function Digit(c: byte): int {
    var code: int := c;
    code - 48
  }

  function Two(text: bytes, i: nat): int
    requires i + 2 <= |text|
  {
    Digit(text[i]) * 10 + Digit(text[i + 1])
  }

  function Four(text: bytes): int
    requires 4 <= |text|
  {
    Two(text, 0) * 100 + Two(text, 2)
  }

  /** The value of the digits when the first is worth `place` and each later one a tenth of the one before. */
  function Places(digits: bytes, place: nat): int {
    if digits == [] then 0 else Digit(digits[0]) * place + Places(digits[1..], place / 10)
  }

  lemma NumberOfTwo(s: bytes)
    requires |s| == 2 && AllDigits(s)
    ensures Number(s) == Two(s, 0)
  {
    var most := s[..1];
    assert most[..0] == [] && Number(most[..0]) == 0;
    assert Number(most) == Number(most[..0]) * 10 + Digit(s[0]);
    assert Number(s) == Number(most) * 10 + Digit(s[1]);
  }

  lemma NumberOfFour(s: bytes)
    requires |s| == 4 && AllDigits(s)
    ensures Number(s) == Four(s)
  {
    var most := s[..3];
    assert Number(s) == Number(most) * 10 + Digit(s[3]);
    assert Number(most) == Number(most[..2]) * 10 + Digit(s[2]);
    NumberOfTwo(s[..2]);
    assert most[..2] == s[..2] && Two(s[..2], 0) == Two(s, 0);
  }

  lemma {:induction false} PlacesFrom(d: bytes, i: nat)
    requires AllDigits(d) && i <= |d| <= 9
    ensures Number(d[..i]) * Pow10(9 - i) + Places(d[i..], if i < 9 then Pow10(8 - i) else 0) == Number(d) * Pow10(9 - |d|)
    decreases |d| - i
  {
    hide Pow10, Number, Places;
    if i == |d| {
      assert d[..i] == d && d[i..] == [];
      NoPlaces();
    } else {
      assert d[i..][1..] == d[i + 1..] && d[..i + 1] == d[..i] + [d[i]];
      NextPlace(d[..i], d[i], 8 - i);
      PlacesFrom(d, i + 1);
      PlaceBelow(8 - i, d[i + 1..]);
      PlacesUnfold(d[i..], Pow10(8 - i));
    }
  }

  lemma NoPlaces()
    ensures forall place :: Places([], place) == 0
  {
  }

  lemma PlacesUnfold(digits: bytes, place: nat)
    requires digits != []
    ensures Places(digits, place) == place * Digit(digits[0]) + Places(digits[1..], place / 10)
  {
    hide Digit;
  }

  lemma PlaceBelow(n: nat, rest: bytes)
    requires n <= 8 && (n == 0 ==> rest == [])
    ensures Places(rest, Pow10(n) / 10) == Places(rest, if n > 0 then Pow10(n - 1) else 0)
  {
  }

  lemma FractionIsPlaces(d: bytes)
    requires AllDigits(d) && |d| <= 9
    ensures Number(d) * Pow10(9 - |d|) == Places(d, 100_000_000)
  {
    PlacesOfASecond();
    PlacesFrom(d, 0);
    assert d[..0] == [] && d[0..] == d;
  }

  // What the text says

  function MonthLength(year: int, month: int): int {
    if month == 2 then (if year % 4 == 0 && (year % 100 != 0 || year % 400 == 0) then 29 else 28)
    else if month in {4, 6, 9, 11} then 30
    else 31
  }

  predicate InRange(text: bytes, z: nat)
    requires IsDateTime(text, z)
  {
    && 1 <= Two(text, 5) <= 12 && 1 <= Two(text, 8) <= MonthLength(Four(text), Two(text, 5))
    && Two(text, 11) <= 23 && Two(text, 14) <= 59 && Two(text, 17) <= 60
    && (|text| == z + 6 ==> Two(text, z + 1) <= 23 && Two(text, z + 4) <= 59)
  }

  /** Minutes east of UTC. */
  function OffsetAt(text: bytes, z: nat): int
    requires IsDateTime(text, z)
  {
    if |text| == z + 1 then 0
    else (if text[z] == 45 then -1 else 1) * (Two(text, z + 1) * 60 + Two(text, z + 4))
  }

  function SecondsAt(text: bytes, z: nat): int
    requires IsDateTime(text, z)
  {
    DaysOf(Date(Four(text), Two(text, 5), Two(text, 8))) * 86_400
    + Two(text, 11) * 3600 + Two(text, 14) * 60 + Two(text, 17) - OffsetAt(text, z) * 60
  }

  /** 2^63 - 1 nanoseconds are 9223372036 whole seconds; the last one at either end is not accepted. */
  predicate OnClock(seconds: int) {
    -9_223_372_035 <= seconds <= 9_223_372_035
  }

  function NanosAt(text: bytes, z: nat): int
    requires IsDateTime(text, z)
  {
    if z == 19 then 0 else Places(text[20..z], 100_000_000)
  }

  lemma NumbersAt(text: bytes, z: nat)
    requires IsDateTime(text, z)
    ensures var f := FieldsAt(text, z);
            && WellShaped(f) && WrittenDate(f) == Date(Four(text), Two(text, 5), Two(text, 8))
            && Number(f.hour) == Two(text, 11) && Number(f.minute) == Two(text, 14) && Number(f.second) == Two(text, 17)
  {
    hide Number, ZoneByPlace;
    FieldsAreThere(text, z);
    NumberOfFour(text[0..4]);
    NumberOfTwo(text[5..7]);
    NumberOfTwo(text[8..10]);
    NumberOfTwo(text[11..13]);
    NumberOfTwo(text[14..16]);
    NumberOfTwo(text[17..19]);
  }

  lemma ZoneNumbersAt(text: bytes, z: nat)
    requires IsDateTime(text, z)
    ensures var f := FieldsAt(text, z);
            && WellShaped(f) && (OffsetInRange(f.zone) <==> |text| == z + 6 ==> Two(text, z + 1) <= 23 && Two(text, z + 4) <= 59)
            && OffsetMinutes(f.zone) == OffsetAt(text, z) && (f.zone.Zulu? <==> |text| == z + 1)
  {
    hide Number, HeadByPlace;
    FieldsAreThere(text, z);
    if |text| == z + 6 {
      NumberOfTwo(text[z + 1..z + 3]);
      NumberOfTwo(text[z + 4..z + 6]);
    }
  }

  lemma FractionNumbersAt(text: bytes, z: nat)
    requires IsDateTime(text, z)
    ensures var f := FieldsAt(text, z);
            && WellShaped(f) && Subsecond(f.fraction) == NanosAt(text, z) && DigitCount(f.fraction) == if z == 19 then 0 else z - 20
  {
    hide Number, HeadByPlace, ZoneByPlace, Pow10;
    FieldsAreThere(text, z);
    if z > 19 {
      FractionIsPlaces(text[20..z]);
    }
  }

  lemma DateInRange(year: int, month: int, day: int)
    ensures IsValidDate(Date(year, month, day)) <==> 1 <= month <= 12 && 1 <= day <= MonthLength(year, month)
  {
  }

  /** The parser, told without it. A text that is no date-time, or one with a field out of range, is an
      invalid timestamp; one too far from the epoch is out of range; every other one gives the instant, the
      offset, the form and the number of digits that stand in it. */
  lemma ParsedByPlace(text: bytes)
    ensures (forall z: nat :: !IsDateTime(text, z)) ==> Parse(text) == Err(InvalidTimestamp)
    ensures forall z: nat :: IsDateTime(text, z) ==>
              if !InRange(text, z) then Parse(text) == Err(InvalidTimestamp)
              else if !OnClock(SecondsAt(text, z)) then Parse(text) == Err(OutOfRange)
              else && Parse(text).Ok?
                   && Parse(text).value.utc == SecondsAt(text, z) * 1_000_000_000 + NanosAt(text, z)
                   && Parse(text).value.offset == OffsetAt(text, z)
                   && Parse(text).value.form == (if |text| == z + 1 then UtcDesignator else Numeric)
                   && Parse(text).value.digits == if z == 19 then 0 else z - 20
  {
    hide IsDateTime, Match, InRange, SecondsAt, NanosAt, OffsetAt, ReadFields;
    MatchedByPlace(text);
    forall z: nat | IsDateTime(text, z)
      ensures if !InRange(text, z) then Parse(text) == Err(InvalidTimestamp)
              else if !OnClock(SecondsAt(text, z)) then Parse(text) == Err(OutOfRange)
              else && Parse(text).Ok?
                   && Parse(text).value.utc == SecondsAt(text, z) * 1_000_000_000 + NanosAt(text, z)
                   && Parse(text).value.offset == OffsetAt(text, z)
                   && Parse(text).value.form == (if |text| == z + 1 then UtcDesignator else Numeric)
                   && Parse(text).value.digits == if z == 19 then 0 else z - 20
    {
      FieldsAreThere(text, z);
      ReadByPlace(text, z);
    }
  }

  lemma ReadByPlace(text: bytes, z: nat)
    requires IsDateTime(text, z)
    ensures WellShaped(FieldsAt(text, z))
    ensures var r := ReadFields(FieldsAt(text, z));
            if !InRange(text, z) then r == Err(InvalidTimestamp)
            else if !OnClock(SecondsAt(text, z)) then r == Err(OutOfRange)
            else && r.Ok? && r.value.utc == SecondsAt(text, z) * 1_000_000_000 + NanosAt(text, z) && r.value.offset == OffsetAt(text, z)
                 && r.value.form == (if |text| == z + 1 then UtcDesignator else Numeric)
                 && r.value.digits == if z == 19 then 0 else z - 20
  {
    hide IsDateTime, FieldsAt, Number, DaysOf, IsValidDate, MonthLength, Two, Four, WellShaped, Subsecond, OffsetMinutes, OffsetInRange,
      NanosAt, OffsetAt, DigitCount;
    ZoneStarts(text, z);
    NumbersAt(text, z);
    ZoneNumbersAt(text, z);
    FractionNumbersAt(text, z);
    DateInRange(Four(text), Two(text, 5), Two(text, 8));
  }

  lemma LeapOctets()
    ensures Ascii("2016-12-31T23:59:60Z") == [50, 48, 49, 54, 45, 49, 50, 45, 51, 49, 84, 50, 51, 58, 53, 57, 58, 54, 48, 90]
  {
  }

  lemma LeapShape(text: bytes)
    requires text == [50, 48, 49, 54, 45, 49, 50, 45, 51, 49, 84, 50, 51, 58, 53, 57, 58, 54, 48, 90]
    ensures IsDateTime(text, 19)
  {
  }

  lemma LeapNumbers(text: bytes)
    requires text == [50, 48, 49, 54, 45, 49, 50, 45, 51, 49, 84, 50, 51, 58, 53, 57, 58, 54, 48, 90]
    ensures Four(text) == 2016 && Two(text, 5) == 12 && Two(text, 8) == 31
    ensures Two(text, 11) == 23 && Two(text, 14) == 59 && Two(text, 17) == 60
  {
  }

  /** The leap second at the end of 2016 is accepted and is the first second of 2017. */
  lemma LeapSecondIsAccepted()
    ensures Parse(Ascii("2016-12-31T23:59:60Z")) == Ok(Timestamp(1_483_228_800 * 1_000_000_000, 0, UtcDesignator, 0))
  {
    hide Parse, IsDateTime, Two, Four, DaysOf, Ascii;
    var text := Ascii("2016-12-31T23:59:60Z");
    LeapOctets();
    LeapShape(text);
    LeapNumbers(text);
    ParsedByPlace(text);
    DaysToLeapSecond();
  }

  lemma DaysToLeapSecond()
    ensures DaysOf(Date(2016, 12, 31)) * 86_400 + 23 * 3600 + 59 * 60 + 60 == 1_483_228_800
  {
  }

  // What is rendered

  /** The nanoseconds that the first digits show. */
  lemma ShownNanos(nanos: nat, digits: digitCount)
    requires 0 < digits && nanos < NANOS
    ensures Subsecond(Some(Pad(nanos, 9)[..digits])) == nanos - nanos % Pow10(9 - digits)
  {
    hide Pow10, Pad, Number, AllDigits, Subsecond, WellShapedFraction;
    var q := nanos / Pow10(9 - digits);
    PadPrefix(nanos, 9, digits);
    QuotientFits(nanos, digits);
    NumberOfPad(q, digits);
    SubsecondOf(Pad(q, digits));
  }

  lemma QuotientFits(nanos: nat, digits: digitCount)
    requires nanos < NANOS
    ensures var p := Pow10(9 - digits); nanos / p < Pow10(digits) && nanos / p * p == nanos - nanos % p
  {
    hide Pow10;
    PlacesOfASecond();
    Pow10Sum(digits, 9 - digits);
    Whole(nanos, Pow10(digits), Pow10(9 - digits));
  }

  lemma SubsecondOf(digits: bytes)
    requires 1 <= |digits| <= 9 && AllDigits(digits)
    ensures WellShapedFraction(Some(digits)) && Subsecond(Some(digits)) == Number(digits) * Pow10(9 - |digits|)
  {
    hide Pow10, Number, AllDigits;
  }

  lemma Whole(n: nat, bound: nat, scale: nat)
    requires scale > 0 && n < bound * scale
    ensures n / scale < bound && n / scale * scale == n - n % scale
  {
    ProductGrows(n / scale, bound, scale);
  }

  lemma RenderedFields(v: Timestamp)
    requires CanRender(v) && -6000 < v.offset < 6000
    ensures var f, z := TimestampLaws.FieldsOf(v), ZonePlace(v);
            WellShaped(f) && IsDateTime(Render(v), z) && FieldsAt(Render(v), z) == f
  {
    hide Layout, WellShaped, IsDateTime, FieldsAt, Render, CanRender, Match, ReadClock, DateOf, Pad;
    var f := TimestampLaws.FieldsOf(v);
    TimestampLaws.RenderIsLayout(v);
    PlacesOfLayout(f);
    MatchOfLayout(f);
    MatchedByPlace(Render(v));
  }

  lemma RenderedDate(v: Timestamp)
    requires CanRender(v)
    ensures var f, local := TimestampLaws.FieldsOf(v), Local(v);
            && AllDigits(f.year) && AllDigits(f.month) && AllDigits(f.day)
            && Date(Number(f.year), Number(f.month), Number(f.day)) == DateOf(local / DAY)
            && IsValidDate(DateOf(local / DAY)) && DaysOf(DateOf(local / DAY)) == local / DAY
  {
    hide Number, Pad, DateOf, DaysOf, ReadClock, AllDigits;
    var date := DateOf(Local(v) / DAY);
    ClockDays(Local(v));
    DateOfIsValid(Local(v) / DAY);
    TimestampLaws.DateFits(date);
    YearHasFourDigits(Local(v));
    TimestampLaws.NumberOfSmall(date.year);
    TimestampLaws.NumberOfSmall(date.month);
    TimestampLaws.NumberOfSmall(date.day);
  }

  lemma RenderedClock(v: Timestamp)
    requires CanRender(v)
    ensures var f, c := TimestampLaws.FieldsOf(v), ReadClock(Local(v));
            && AllDigits(f.hour) && AllDigits(f.minute) && AllDigits(f.second)
            && Number(f.hour) == c.hours && Number(f.minute) == c.minutes && Number(f.second) == c.seconds
            && (v.digits == 0 ==> f.fraction == None)
            && (v.digits > 0 ==> f.fraction == Some(Pad(c.nanos, 9)[..v.digits]))
  {
    hide Number, Pad, DateOf, ReadClock, AllDigits;
    var c := ReadClock(Local(v));
    TimestampLaws.NumberOfSmall(c.hours);
    TimestampLaws.NumberOfSmall(c.minutes);
    TimestampLaws.NumberOfSmall(c.seconds);
  }

  lemma RenderedZone(v: Timestamp)
    requires CanRender(v) && -6000 < v.offset < 6000 && WellShapedZone(TimestampLaws.FieldsOf(v).zone)
    ensures var zone := TimestampLaws.FieldsOf(v).zone;
            && (v.form.UtcDesignator? ==> zone == Zulu(90))
            && (v.form.Numeric? ==> zone.Offset? && OffsetMinutes(zone) == v.offset && zone.sign == if v.offset < 0 then 45 else 43)
            && (v.form.Numeric? ==> Number(zone.minute) < 60)
  {
    hide Number, Pad, DateOf, ReadClock, AllDigits;
    var magnitude := if v.offset < 0 then -v.offset else v.offset;
    TimestampLaws.NumberOfSmall(magnitude / 60);
    TimestampLaws.NumberOfSmall(magnitude % 60);
  }

  /** Where the zone of a rendering starts. */
  function ZonePlace(v: Timestamp): nat {
    if v.digits == 0 then 19 else 20 + v.digits
  }

  lemma RenderedDateAt(v: Timestamp)
    requires CanRender(v) && -6000 < v.offset < 6000
    ensures var text := Render(v);
            && IsDateTime(text, ZonePlace(v)) && |text| >= 20
            && IsValidDate(Date(Four(text), Two(text, 5), Two(text, 8)))
            && DaysOf(Date(Four(text), Two(text, 5), Two(text, 8))) == Local(v) / DAY
  {
    hide Number, DateOf, DaysOf, AllDigits, Render, CanRender, IsDateTime, TimestampLaws.FieldsOf, Two, Four, IsValidDate, WellShaped,
      FieldsAt, Local;
    RenderedFields(v);
    RenderedDate(v);
    NumbersAt(Render(v), ZonePlace(v));
    ZoneStarts(Render(v), ZonePlace(v));
  }

  lemma RenderedClockAt(v: Timestamp)
    requires CanRender(v) && -6000 < v.offset < 6000
    ensures var text, c := Render(v), ReadClock(Local(v));
            && IsDateTime(text, ZonePlace(v)) && |text| >= 20
            && Two(text, 11) == c.hours && Two(text, 14) == c.minutes && Two(text, 17) == c.seconds
            && NanosAt(text, ZonePlace(v)) == if v.digits == 0 then 0 else c.nanos - c.nanos % Pow10(9 - v.digits)
  {
    hide Number, DateOf, ReadClock, AllDigits, Render, CanRender, IsDateTime, TimestampLaws.FieldsOf, Two, Four, WellShaped, FieldsAt,
      NanosAt, Subsecond, Pow10, Pad, Local;
    RenderedFields(v);
    RenderedClock(v);
    NumbersAt(Render(v), ZonePlace(v));
    FractionNumbersAt(Render(v), ZonePlace(v));
    ZoneStarts(Render(v), ZonePlace(v));
    if v.digits > 0 {
      ShownNanos(ReadClock(Local(v)).nanos, v.digits);
    } else {
      NoFraction();
    }
  }

  lemma NoFraction()
    ensures Subsecond(None) == 0
  {
  }

  lemma RenderedZoneAt(v: Timestamp)
    requires CanRender(v) && -6000 < v.offset < 6000
    ensures var text, z := Render(v), ZonePlace(v);
            && IsDateTime(text, z) && z < |text| && text[10] == 84
            && (v.form.UtcDesignator? ==> |text| == z + 1 && text[z] == 90)
            && (v.form.Numeric? ==> |text| == z + 6 && OffsetAt(text, z) == v.offset && text[z] == if v.offset < 0 then 45 else 43)
  {
    hide Render, CanRender, IsDateTime, TimestampLaws.FieldsOf, WellShaped, FieldsAt, OffsetAt, OffsetMinutes, OffsetInRange, Number,
      AllDigits, WellShapedZone;
    var text, z := Render(v), ZonePlace(v);
    RenderedFields(v);
    ZoneOfShape(TimestampLaws.FieldsOf(v));
    RenderedZone(v);
    ZoneStarts(text, z);
    ZoneNumbersAt(text, z);
    SeparatorIs(v);
    ZoneEnds(text, z);
  }

  /** What a rendering says, by its places: the date of the local day, the time since its midnight, the
      nanoseconds cut to the digits shown, and the zone. */
  lemma RenderedByPlace(v: Timestamp)
    requires CanRender(v) && -6000 < v.offset < 6000
    ensures var text, z := Render(v), ZonePlace(v);
            && IsDateTime(text, z) && |text| >= 20 && text[10] == 84
            && IsValidDate(Date(Four(text), Two(text, 5), Two(text, 8)))
            && DaysOf(Date(Four(text), Two(text, 5), Two(text, 8))) == Local(v) / (86_400 * 1_000_000_000)
            && Two(text, 11) <= 23 && Two(text, 14) <= 59 && Two(text, 17) <= 59
            && (Two(text, 11) * 3600 + Two(text, 14) * 60 + Two(text, 17)) * 1_000_000_000 + Local(v) % 1_000_000_000
               == Local(v) % (86_400 * 1_000_000_000)
            && NanosAt(text, z) == (if v.digits == 0 then 0 else v.utc % 1_000_000_000 - v.utc % 1_000_000_000 % Pow10(9 - v.digits))
            && (v.form.UtcDesignator? ==> |text| == z + 1 && text[z] == 90)
            && (v.form.Numeric? ==> |text| == z + 6 && OffsetAt(text, z) == v.offset && text[z] == if v.offset < 0 then 45 else 43)
  {
    hide DaysOf, Render, CanRender, IsDateTime, Two, Four, NanosAt, OffsetAt, IsValidDate, Pow10, ReadClock, Local;
    RenderedDateAt(v);
    RenderedClockAt(v);
    RenderedZoneAt(v);
    ClockParts(Local(v));
    TimestampLaws.ClockSeconds(v);
  }

  lemma ZoneOfShape(f: Fields)
    requires WellShaped(f)
    ensures WellShapedZone(f.zone)
  {
  }

  lemma SeparatorIs(v: Timestamp)
    requires CanRender(v)
    ensures TimestampLaws.FieldsOf(v).separator == 84
  {
    hide ReadClock, DateOf, Pad, CanRender;
  }

  lemma ZoneEnds(text: bytes, z: nat)
    requires IsDateTime(text, z)
    ensures |text| == z + 1 || |text| == z + 6
    ensures FieldsAt(text, z).zone == if |text| == z + 1 then Zulu(text[z]) else Offset(text[z], text[z + 1..z + 3], text[z + 4..z + 6])
    ensures FieldsAt(text, z).separator == text[10]
  {
    hide HeadByPlace;
  }

  lemma ClockParts(local: int)
    ensures var c := ReadClock(local);
            && c.days == local / DAY && c.nanos == local % NANOS
            && (c.hours * 3600 + c.minutes * 60 + c.seconds) * NANOS + c.nanos == local % DAY
  {
    hide ReadClock;
    var c := ReadClock(local);
    var seconds := c.hours * 3600 + c.minutes * 60 + c.seconds;
    Euclid(local, c.days, seconds * NANOS + c.nanos, DAY);
    Euclid(local, c.days * DAY_SECONDS + seconds, c.nanos, NANOS);
  }
}
