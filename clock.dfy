/**
 * The text formatting of `realTimeClock` (js/script.js): from the six values
 * read off the current `Date` to the three strings written into the page's
 * `clock`, `ampm` and `date` elements.
 *
 * The quirks of the script are kept as written: midnight shows hour "00",
 * the month is `getMonth()`'s zero-based index (January is "00"), and the
 * "day" is `getDay()`'s weekday index (Sunday is "00"), not the day of the month.
 */
module Clock {
  import opened Wrappers
  import opened JsText

  /** The values realTimeClock reads with getHours, getMinutes, getSeconds, getDay, getMonth and getFullYear. */
  datatype Moment = Moment(hours: nat, minutes: nat, seconds: nat, day: nat, month: nat, year: int)
  {
    /** The ranges the Date getters return values in. */
    predicate Valid() {
      hours < 24 && minutes < 60 && seconds < 60 && day < 7 && month < 12
    }
  }

  /** The texts realTimeClock writes into the `clock`, `ampm` and `date` elements. */
  datatype Display = Display(clock: string, ampm: string, date: string)

  /** The am/pm marker, chosen from the 24-hour value. */
  function Tod(hours: nat): (r: string)
    ensures r == "am" || r == "pm"
    ensures r == "am" <==> hours < 12
  {
    if hours < 12 then "am" else "pm"
  }

  /** The 12-hour fold: hours above 12 lose 12, the others, midnight included, stay. */
  function To12(hours: nat): (r: nat)
    ensures r == 0 <==> hours == 0
    ensures hours <= 24 ==> r <= 12
    ensures hours < 24 ==> (r == hours <==> hours <= 12)
  {
    if hours > 12 then hours - 12 else hours
  }

  /** `("0" + n).slice(-2)`: always two digit characters. */
  function Pad2(n: nat): (r: string)
    ensures |r| == 2 && AllDigits(r)
  {
    var s := "0" + NumberString(n);
    assert |s| >= 2 && AllDigits(s);
    Slice(s, -2)
  }

  /** The `clock` text: padded 12-hour hours, minutes and seconds, separated by " : ". */
  function ClockText(hours: nat, minutes: nat, seconds: nat): (r: string)
    ensures |r| == 12
  {
    Pad2(To12(hours)) + " : " + Pad2(minutes) + " : " + Pad2(seconds)
  }

  /** The `date` text: padded weekday and month indices, then the year as JavaScript writes it. */
  function DateText(day: nat, month: nat, year: int): (r: string)
    ensures |r| == 10 + |NumberString(year)|
  {
    Pad2(day) + " / " + Pad2(month) + " / " + NumberString(year)
  }

  /** One run of realTimeClock's formatting: what ends up in the three page elements. */
  function Render(t: Moment): (d: Display)
    ensures |d.clock| == 12
    ensures d.ampm == "am" <==> t.hours < 12
  {
    Display(ClockText(t.hours, t.minutes, t.seconds), Tod(t.hours), DateText(t.day, t.month, t.year))
  }

  // ---------------------------------------------------------------------------
  // Reading a display back: the partner of Render.

  /** The 24-hour value a 12-hour value and its marker stand for; None if no hour is written that way. */
  function To24(tod: string, hour12: nat): (r: Option<nat>)
    ensures r.Some? ==> r.value < 24
  {
    if tod == "am" && hour12 < 12 then Some(hour12)
    else if tod == "pm" && hour12 == 12 then Some(12)
    else if tod == "pm" && 1 <= hour12 < 12 then Some(hour12 + 12)
    else None
  }

  /** Reads `hh : mm : ss` back into its three numbers. */
  function ParseClock(c: string): Option<(nat, nat, nat)>
  {
    if |c| == 12 && c[2..5] == " : " && c[7..10] == " : " then
      match (ParseNat(c[..2]), ParseNat(c[5..7]), ParseNat(c[10..]))
      case (Some(h), Some(m), Some(s)) => Some((h, m, s))
      case _ => None
    else None
  }

  /** Reads `dd / mm / year` back into its three numbers. */
  function ParseDate(d: string): Option<(nat, nat, int)>
  {
    if |d| > 10 && d[2..5] == " / " && d[7..10] == " / " then
      match (ParseNat(d[..2]), ParseNat(d[5..7]), ParseInt(d[10..]))
      case (Some(day), Some(month), Some(year)) => Some((day, month, year))
      case _ => None
    else None
  }

  /** Recovers the moment a display was rendered from; None if the texts are not of that shape. */
  function Read(d: Display): (r: Option<Moment>)
    ensures r.Some? ==> r.value.Valid()
  {
    var clock, date := ParseClock(d.clock), ParseDate(d.date);
    if clock.None? || date.None? then None
    else
      var hours := To24(d.ampm, clock.value.0);
      if hours.None? then None
      else
        var t := Moment(hours.value, clock.value.1, clock.value.2, date.value.0, date.value.1, date.value.2);
        if t.Valid() then Some(t) else None
  }

  // ---------------------------------------------------------------------------
  // Properties of the formatting.

  /** The two characters of Pad2(n) are the tens and the units digit of n. */
  lemma Pad2Digits(n: nat)
    ensures Pad2(n) == [DigitChar(n / 10 % 10), DigitChar(n % 10)]
  {
    var s := "0" + NumberString(n);
    if n >= 10 {
      assert Decimal(n) == Decimal(n / 10) + [DigitChar(n % 10)];
      var p := Decimal(n / 10);
      assert s == "0" + p + [DigitChar(n % 10)];
      assert s[|s| - 2] == p[|p| - 1];
    }
  }

  /** Padding keeps the last two decimal digits: reading Pad2(n) back gives n % 100. */
  lemma Pad2Value(n: nat)
    ensures ParseNat(Pad2(n)) == Some(n % 100)
  {
    Pad2Digits(n);
    var q := n / 10;
    assert n == 10 * q + n % 10;
    assert q == 10 * (q / 10) + q % 10;
    assert n == 100 * (q / 10) + (10 * (q % 10) + n % 10);
    TwoDigitsValue(q % 10, n % 10);
  }

  /** Below 100 padding is lossless: 0-9 gain a leading '0', 10-99 are their plain decimal form. */
  lemma Pad2RoundTrip(n: nat)
    requires n < 100
    ensures ParseNat(Pad2(n)) == Some(n)
    ensures n < 10 ==> Pad2(n) == "0" + NumberString(n)
    ensures 10 <= n ==> Pad2(n) == NumberString(n)
  {
    Pad2Value(n);
    Pad2Digits(n);
    if 10 <= n {
      assert Decimal(n) == Decimal(n / 10) + [DigitChar(n % 10)];
      assert Decimal(n / 10) == [DigitChar(n / 10)];
    }
  }

  /** The fold keeps the position within the half day: the shown hour is congruent to the 24-hour value modulo 12. */
  lemma To12Congruent(hours: nat)
    ensures To12(hours) % 12 == hours % 12
  {
  }

  /** The am/pm marker and the folded hour together determine the 24-hour value. */
  lemma HourRoundTrip(hours: nat)
    requires hours < 24
    ensures To24(Tod(hours), To12(hours)) == Some(hours)
  {
  }

  /** The clock text reads back as the folded hour and the minutes and seconds, each modulo 100. */
  lemma ClockTextRead(hours: nat, minutes: nat, seconds: nat)
    ensures ParseClock(ClockText(hours, minutes, seconds))
         == Some((To12(hours) % 100, minutes % 100, seconds % 100))
  {
    var c := ClockText(hours, minutes, seconds);
    assert c[..2] == Pad2(To12(hours));
    assert c[2..5] == " : ";
    assert c[5..7] == Pad2(minutes);
    assert c[7..10] == " : ";
    assert c[10..] == Pad2(seconds);
    Pad2Value(To12(hours));
    Pad2Value(minutes);
    Pad2Value(seconds);
  }

  /** The date text reads back as the weekday and month indices modulo 100 and the whole year. */
  lemma DateTextRead(day: nat, month: nat, year: int)
    ensures ParseDate(DateText(day, month, year)) == Some((day % 100, month % 100, year))
  {
    var d := DateText(day, month, year);
    assert d[..2] == Pad2(day);
    assert d[2..5] == " / ";
    assert d[5..7] == Pad2(month);
    assert d[7..10] == " / ";
    assert d[10..] == NumberString(year);
    Pad2Value(day);
    Pad2Value(month);
    NumberStringRoundTrip(year);
  }

  /** Every moment the Date getters can produce is recovered from its display. */
  lemma ReadRender(t: Moment)
    requires t.Valid()
    ensures Read(Render(t)) == Some(t)
  {
    var h12 := To12(t.hours);
    assert h12 % 100 == h12 && t.minutes % 100 == t.minutes && t.seconds % 100 == t.seconds;
    assert t.day % 100 == t.day && t.month % 100 == t.month;
    ClockTextRead(t.hours, t.minutes, t.seconds);
    DateTextRead(t.day, t.month, t.year);
    HourRoundTrip(t.hours);
  }

  /** Two different moments never show the same display. */
  lemma RenderInjective(t: Moment, u: Moment)
    requires t.Valid() && u.Valid()
    requires Render(t) == Render(u)
    ensures t == u
  {
    ReadRender(t);
    ReadRender(u);
  }

  /** A four-digit year gives a date text of 14 characters, `dd / mm / yyyy`. */
  lemma DateTextLength(day: nat, month: nat, year: int)
    requires 1000 <= year < 10000
    ensures |DateText(day, month, year)| == 14
  {
    assert Pow10(3) == 1000 && Pow10(4) == 10000;
    DecimalLength(year, 4);
  }

  // ---------------------------------------------------------------------------
  // The quirks, on concrete moments.

  /** Midnight is shown as "00" am, noon as "12" pm and 13 o'clock as "01" pm. */
  lemma MidnightNoonAndOne(m: nat, s: nat)
    ensures ClockText(0, m, s)[..2] == "00" && Tod(0) == "am"
    ensures ClockText(12, m, s)[..2] == "12" && Tod(12) == "pm"
    ensures ClockText(13, m, s)[..2] == "01" && Tod(13) == "pm"
  {
    Pad2Digits(0);
    Pad2Digits(12);
    Pad2Digits(1);
  }

  /** The month is shown zero-based and the weekday index stands where the day is: January shows "00". */
  lemma ZeroBasedFields(year: int)
    ensures DateText(0, 0, year)[..7] == "00 / 00"
    ensures DateText(6, 11, year)[..7] == "06 / 11"
  {
    Pad2Digits(0);
    Pad2Digits(6);
    Pad2Digits(11);
    assert DateText(0, 0, year)[..7] == Pad2(0) + " / " + Pad2(0);
    assert DateText(6, 11, year)[..7] == Pad2(6) + " / " + Pad2(11);
  }
}
