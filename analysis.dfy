/**
  The analyzer's two time conversions: seconds to `HH:MM:SS.ss` text, and
  seconds to minutes. Pandas' NaN and Python's None are both `None` here.
*/
module Analysis {
  import opened Wrappers
  import opened PyText
  import PyNum
  import Scraper

  /** A number of seconds split as `seconds_to_time_str` splits it. */
  datatype Clock = Clock(hours: int, minutes: int, secs: real)

  /**
    `hours = int(s // 3600)`, `minutes = int((s % 3600) // 60)` and
    `secs = s % 60`, with Python's flooring `//` and `%` on floats: the
    minutes are a minute of the hour, the seconds a second of the minute,
    and together they add back up to `s`.
  */
  function ClockOf(x: real): (c: Clock)
    ensures 0 <= c.minutes <= 59
    ensures 0.0 <= c.secs < 60.0
    ensures (c.hours * 3600 + c.minutes * 60) as real + c.secs == x
  {
    var h := PyNum.FloorDiv(x, 3600.0);
    var rest := PyNum.FloatMod(x, 3600.0);
    var m := PyNum.FloorDiv(rest, 60.0);
    var k := PyNum.FloorDiv(x, 60.0);
    assert 0.0 <= rest < 3600.0;
    assert k == 60 * h + m;
    Clock(h, m, PyNum.FloatMod(x, 60.0))
  }

  /** `f"{hours:02d}:{minutes:02d}:{secs:05.2f}"` */
  function ClockText(c: Clock): string
  {
    FormatInt(c.hours, 2) + ":" + FormatInt(c.minutes, 2) + ":" + FormatFixed2(c.secs, 5)
  }

  /** `seconds_to_time_str`: None stays None; a number becomes its clock text. */
  function SecondsToTimeStr(s: Option<real>): (r: Option<string>)
    ensures r.None? <==> s.None?
  {
    match s
    case None => None
    case Some(x) => Some(ClockText(ClockOf(x)))
  }

  /** `time_str_to_minutes`: None stays None; otherwise the number of minutes. */
  function TimeStrToMinutes(s: Option<real>): (r: Option<real>)
    ensures r.None? <==> s.None?
    ensures r.Some? ==> r.value * 60.0 == s.value
  {
    match s
    case None => None
    case Some(x) => Some(x / 60.0)
  }

  // ---------------------------------------------------------------- reading the text back

  /** `f"{x:0{w}.2f}"` for `x >= 0`: digits and one point, a digit at either end. */
  lemma {:induction false} FormatFixed2Text(x: real, width: nat)
    requires x >= 0.0
    ensures var s := FormatFixed2(x, width);
      s != [] && !IsSpace(s[0]) && !IsSpace(s[|s| - 1]) && ':' !in s
  {
    FormatFixed2Cents(x, width);
    var cents := PyNum.RoundHalfEven(x * 100.0);
    var s := FormatFixed2(x, width);
    var whole, two := Fixed2Shape(cents, width);
    SignedDecimalCents(s, whole, two, cents);
    DigitsWithout(whole, ':');
    DigitsWithout(two, ':');
  }

  /**
    Three ':'-free fields joined by ':', with no whitespace at either end,
    are read by `parse_chip_time` field by field.
  */
  lemma {:induction false} ThreeFieldsParse(s: string, hh: string, mm: string, ss: string)
    requires s == hh + ":" + mm + ":" + ss
    requires hh != [] && !IsSpace(hh[0]) && ss != [] && !IsSpace(ss[|ss| - 1])
    requires ':' !in hh && ':' !in mm && ':' !in ss
    ensures Scraper.ParseChipTime(s) == Scraper.HmsSeconds(ParseInt(hh), ParseInt(mm), ParseFloat(ss))
  {
    assert s[0] == hh[0] && s[|s| - 1] == ss[|ss| - 1];
    StripUnchanged(s);
    Scraper.ParseChipTimeThreeFields(s, hh, mm, ss);
  }

  /**
    Clock text with non-negative seconds has no surrounding whitespace and
    exactly three ':'-separated fields; its hours and minutes read back unchanged.
  */
  lemma ClockTextFields(c: Clock)
    ensures c.secs >= 0.0 ==>
      Scraper.ParseChipTime(ClockText(c))
        == Scraper.HmsSeconds(Some(c.hours), Some(c.minutes), ParseFloat(FormatFixed2(c.secs, 5)))
  {
    if c.secs >= 0.0 {
      FormatIntText(c.hours, 2);
      FormatIntText(c.minutes, 2);
      FormatFixed2Text(c.secs, 5);
      ThreeFieldsParse(ClockText(c), FormatInt(c.hours, 2), FormatInt(c.minutes, 2), FormatFixed2(c.secs, 5));
      ParseFormatInt(c.hours, 2);
      ParseFormatInt(c.minutes, 2);
    }
  }

  /** The seconds field reads back as the seconds rounded half-to-even to hundredths. */
  lemma SecondsFieldValue(x: real)
    ensures x >= 0.0 ==>
      ParseFloat(FormatFixed2(x, 5)) == Some(PyNum.Hundredths(PyNum.RoundHalfEven(x * 100.0)))
  {
    if x >= 0.0 {
      ParseFormatFixed2(x, 5);
    }
  }

  /** The three fields of clock text with non-negative seconds, read back. */
  lemma ClockTextHms(c: Clock)
    ensures c.secs >= 0.0 ==>
      Scraper.ParseChipTime(ClockText(c))
        == Scraper.HmsSeconds(Some(c.hours), Some(c.minutes),
                              Some(PyNum.Hundredths(PyNum.RoundHalfEven(c.secs * 100.0))))
  {
    ClockTextFields(c);
    SecondsFieldValue(c.secs);
  }

  /** Three fields that all read combine as `H*3600 + M*60 + S`. */
  lemma HmsSecondsAll(h: int, m: int, v: real)
    ensures Scraper.HmsSeconds(Some(h), Some(m), Some(v)) == Some(Scraper.ClockSeconds(h, m, v))
  {
  }

  /**
    Clock text with non-negative seconds reads back as its hours and minutes
    plus its seconds rounded half-to-even to hundredths.
  */
  lemma ParseClockText(c: Clock)
    requires c.secs >= 0.0
    ensures Scraper.ParseChipTime(ClockText(c))
         == Some(Scraper.ClockSeconds(c.hours, c.minutes, PyNum.Hundredths(PyNum.RoundHalfEven(c.secs * 100.0))))
  {
    ClockTextHms(c);
    HmsSecondsAll(c.hours, c.minutes, PyNum.Hundredths(PyNum.RoundHalfEven(c.secs * 100.0)));
  }

  /**
    Rounding the seconds of the minute to hundredths and adding back the
    whole hours and minutes is rounding all of `x` to hundredths.
  */
  lemma ShiftCents(x: real)
    ensures var c := ClockOf(x);
      PyNum.Hundredths(PyNum.RoundHalfEven(x * 100.0))
        == Scraper.ClockSeconds(c.hours, c.minutes, PyNum.Hundredths(PyNum.RoundHalfEven(c.secs * 100.0)))
  {
    var c := ClockOf(x);
    var whole := c.hours * 3600 + c.minutes * 60;
    assert x * 100.0 == c.secs * 100.0 + (2 * (50 * whole)) as real;
    PyNum.RoundHalfEvenShift(c.secs * 100.0, 50 * whole);
  }

  /**
    Reading the clock text of `x` back with `parse_chip_time` gives `x`
    rounded half-to-even to hundredths of a second.
  */
  lemma ParseSecondsToTimeStr(x: real)
    ensures Scraper.ParseChipTime(SecondsToTimeStr(Some(x)).value)
         == Some(PyNum.Hundredths(PyNum.RoundHalfEven(x * 100.0)))
  {
    ParseClockText(ClockOf(x));
    ShiftCents(x);
  }

  /** A whole number of hundredths is not changed by rounding to hundredths. */
  lemma HundredthsExact(x: real, cents: int)
    requires x * 100.0 == cents as real
    ensures PyNum.Hundredths(PyNum.RoundHalfEven(x * 100.0)) == x
  {
  }

  /** For a whole number of hundredths, in particular whole seconds, the text reads back exactly. */
  lemma ParseSecondsToTimeStrExact(x: real, cents: int)
    requires x * 100.0 == cents as real
    ensures Scraper.ParseChipTime(SecondsToTimeStr(Some(x)).value) == Some(x)
  {
    ParseSecondsToTimeStr(x);
    HundredthsExact(x, cents);
  }

  // ---------------------------------------------------------------- a seconds field of 60.00

  /**
    As written, the seconds of the minute are rounded only when printed, after
    the hours and minutes were split off: 59.996 s splits as 0 h, 0 min,
    59.996 s, and its seconds field prints as `60.00`, a second of the minute
    that no clock shows (the full text is `00:00:60.00` where `00:01:00.00`
    is meant).
  */
  lemma SecondsFieldSixty()
    ensures ClockOf(59.996) == Clock(0, 0, 59.996)
    ensures ParseFloat(FormatFixed2(ClockOf(59.996).secs, 5)) == Some(60.0)
  {
    ClockOfSixty();
    FixedSixty();
  }

  lemma ClockOfSixty()
    ensures ClockOf(59.996) == Clock(0, 0, 59.996)
  {
  }

  lemma FixedSixty()
    ensures ParseFloat(FormatFixed2(59.996, 5)) == Some(60.0)
  {
    SecondsFieldValue(59.996);
    assert PyNum.RoundHalfEven(59.996 * 100.0) == 6000;
  }

  /**
    The split evidently intended: round the whole value to hundredths first,
    then take hours, minutes and hundredths of a second from that count.
  */
  function ClockOfCents(x: real): (c: Clock)
    ensures 0 <= c.minutes <= 59
    ensures 0.0 <= c.secs <= 59.99
    ensures Scraper.ClockSeconds(c.hours, c.minutes, c.secs) == PyNum.Hundredths(PyNum.RoundHalfEven(x * 100.0))
  {
    var cents := PyNum.RoundHalfEven(x * 100.0);
    var rest := cents % 360000;
    Clock(cents / 360000, rest / 6000, PyNum.Hundredths(rest % 6000))
  }

  /** `seconds_to_time_str` with the rounding done before the split. */
  function SecondsToTimeStrRounded(s: Option<real>): (r: Option<string>)
    ensures r.None? <==> s.None?
  {
    match s
    case None => None
    case Some(x) => Some(ClockText(ClockOfCents(x)))
  }

  /**
    The corrected text reads back as the same value as before: `x` rounded
    half-to-even to hundredths.
  */
  lemma ParseSecondsToTimeStrRounded(x: real)
    ensures Scraper.ParseChipTime(SecondsToTimeStrRounded(Some(x)).value)
         == Some(PyNum.Hundredths(PyNum.RoundHalfEven(x * 100.0)))
  {
    var c := ClockOfCents(x);
    var cs := CentsOfMinute(x);
    ParseWholeHundredthsClock(c, cs, PyNum.Hundredths(PyNum.RoundHalfEven(x * 100.0)));
  }

  /** Its seconds field reads back as a second of the minute, below 60. */
  lemma RoundedSecondsField(x: real)
    ensures var c := ClockOfCents(x);
      ParseFloat(FormatFixed2(c.secs, 5)) == Some(c.secs) && c.secs < 60.0
  {
    var c := ClockOfCents(x);
    var cs := CentsOfMinute(x);
    WholeHundredths(c, cs);
    SecondsFieldValue(c.secs);
  }

  /** The seconds of a corrected clock are a whole number of hundredths. */
  lemma CentsOfMinute(x: real) returns (cs: nat)
    ensures ClockOfCents(x).secs == PyNum.Hundredths(cs)
  {
    cs := PyNum.RoundHalfEven(x * 100.0) % 360000 % 6000;
  }

  /** Clock text whose seconds are whole hundredths reads back exactly. */
  lemma ParseWholeHundredthsClock(c: Clock, cs: nat, v: real)
    requires c.secs == PyNum.Hundredths(cs)
    requires Scraper.ClockSeconds(c.hours, c.minutes, c.secs) == v
    ensures Scraper.ParseChipTime(ClockText(c)) == Some(v)
  {
    ParseClockText(c);
    WholeHundredths(c, cs);
  }

  /** Seconds in whole hundredths are their own rounding to hundredths. */
  lemma WholeHundredths(c: Clock, cs: int)
    ensures c.secs == PyNum.Hundredths(cs) ==>
      PyNum.Hundredths(PyNum.RoundHalfEven(c.secs * 100.0)) == c.secs
  {
  }
}
