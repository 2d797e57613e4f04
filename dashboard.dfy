/**
  The dashboard generator's computations: seconds shown as minutes and as
  `M:SS` text, the pairing that feeds the wind/time correlation, the overall
  and per-year statistics blocks, and the riders seen in two or more results.
*/
module Dashboard {
  import opened Wrappers
  import opened PyText
  import PyNum
  import Ordering
  import Scraper

  // ---------------------------------------------------------------- time formatting

  /** `seconds_to_minutes`: None stays None; otherwise the minutes, rounded to 2 decimals. */
  function SecondsToMinutes(s: Option<real>): (r: Option<real>)
    ensures r.None? <==> s.None?
    ensures r.Some? ==> -0.005 <= r.value - s.value / 60.0 <= 0.005
  {
    match s
    case None => None
    case Some(x) =>
      assert PyNum.Pow10(2) == 100;
      Some(PyNum.Round(x / 60.0, 2))
  }

  /** A time split into whole minutes and whole seconds, as `seconds_to_mmss` splits it. */
  datatype MinSec = MinSec(minutes: int, secs: int)

  /**
    `minutes = int(s // 60)` and `secs = int(s % 60)`: the seconds are a
    second of the minute, and the two add back up to the whole seconds of `s`.
  */
  function MinSecOf(x: real): (t: MinSec)
    ensures 0 <= t.secs <= 59
    ensures t.minutes * 60 + t.secs == x.Floor
  {
    var q := PyNum.FloorDiv(x, 60.0);
    var rest := PyNum.FloatMod(x, 60.0);
    assert 0.0 <= rest < 60.0;
    assert x == (q * 60) as real + rest;
    MinSec(q, rest.Floor)
  }

  /** `f"{minutes}:{secs:02d}"`: the minutes unpadded (the zero-width format), the seconds in two digits. */
  function MinSecText(t: MinSec): string
  {
    FormatInt(t.minutes, 0) + ":" + FormatInt(t.secs, 2)
  }

  /** `seconds_to_mmss`: None stays None; a number becomes its `M:SS` text. */
  function SecondsToMmss(s: Option<real>): (r: Option<string>)
    ensures r.None? <==> s.None?
  {
    match s
    case None => None
    case Some(x) => Some(MinSecText(MinSecOf(x)))
  }

  /** A second of the minute prints as exactly two digits. */
  lemma SecsFieldText(secs: int)
    ensures 0 <= secs <= 59 ==>
      var s := FormatInt(secs, 2);
      |s| == 2 && IsDigit(s[0]) && IsDigit(s[1]) && ':' !in s
  {
    if 0 <= secs <= 59 {
      assert PyNum.Pow10(2) == 100;
      FormatIntWidth(secs, 2);
      DigitsWithout(FormatInt(secs, 2), ':');
    }
  }

  /**
    Two ':'-free fields joined by ':', with no whitespace at either end, are
    read by `parse_chip_time` as minutes and seconds.
  */
  lemma {:induction false} TwoFieldsParse(s: string, mm: string, ss: string)
    requires s == mm + ":" + ss
    requires mm != [] && !IsSpace(mm[0]) && ss != [] && !IsSpace(ss[|ss| - 1])
    requires ':' !in mm && ':' !in ss
    ensures Scraper.ParseChipTime(s) == Scraper.MsSeconds(ParseInt(mm), ParseFloat(ss))
  {
    assert s[0] == mm[0] && s[|s| - 1] == ss[|ss| - 1];
    StripUnchanged(s);
    Scraper.ParseChipTimeTwoFields(s, mm, ss);
  }

  /** `M:SS` text reads back field by field. */
  lemma MinSecTextFields(t: MinSec)
    ensures 0 <= t.secs <= 59 ==>
      Scraper.ParseChipTime(MinSecText(t)) == Scraper.MsSeconds(Some(t.minutes), Some(t.secs as real))
  {
    if 0 <= t.secs <= 59 {
      FormatIntText(t.minutes, 0);
      SecsFieldText(t.secs);
      TwoFieldsParse(MinSecText(t), FormatInt(t.minutes, 0), FormatInt(t.secs, 2));
      ParseFormatInt(t.minutes, 0);
      ParseFloatFormatInt(t.secs, 2);
    }
  }

  /** Two fields that both read combine as `M*60 + S`. */
  lemma MsSecondsAll(m: int, v: real)
    ensures Scraper.MsSeconds(Some(m), Some(v)) == Some(Scraper.MinuteSeconds(m, v))
  {
  }

  /** `M:SS` text with a second of the minute reads back as `M*60 + SS`. */
  lemma ParseMinSecText(t: MinSec)
    requires 0 <= t.secs <= 59
    ensures Scraper.ParseChipTime(MinSecText(t)) == Some(Scraper.MinuteSeconds(t.minutes, t.secs as real))
  {
    MinSecTextFields(t);
    MsSecondsAll(t.minutes, t.secs as real);
  }

  /** The minutes and seconds of `x` add back up to its whole seconds. */
  lemma MinSecValue(x: real)
    ensures var t := MinSecOf(x);
      Scraper.MinuteSeconds(t.minutes, t.secs as real) == x.Floor as real
  {
  }

  /**
    Reading `seconds_to_mmss(s)` back with `parse_chip_time` (its `M:S`
    branch) gives the whole seconds of `s`, for negative `s` too.
  */
  lemma ParseSecondsToMmss(x: real)
    ensures Scraper.ParseChipTime(SecondsToMmss(Some(x)).value) == Some(x.Floor as real)
  {
    ParseMinSecText(MinSecOf(x));
    MinSecValue(x);
  }

  /** A whole number of seconds reads back unchanged. */
  lemma ParseSecondsToMmssWhole(n: int)
    ensures Scraper.ParseChipTime(SecondsToMmss(Some(n as real)).value) == Some(n as real)
  {
    ParseSecondsToMmss(n as real);
  }

  // ---------------------------------------------------------------- correlation input

  /**
    The pairs `(x, y)` of `zip(xs, ys)` where neither value is None, in
    order; `zip` stops at the end of the shorter list.
  */
  function ValidPairs(xs: seq<Option<real>>, ys: seq<Option<real>>): (r: seq<(real, real)>)
    ensures |r| <= |xs| && |r| <= |ys|
  {
    if xs == [] || ys == [] then []
    else
      (if xs[0].Some? && ys[0].Some? then [(xs[0].value, ys[0].value)] else [])
      + ValidPairs(xs[1..], ys[1..])
  }

  /**
    A pair is kept exactly when it stands at a common position of both lists
    with both values present.
  */
  lemma {:induction false} ValidPairsMember(xs: seq<Option<real>>, ys: seq<Option<real>>, p: (real, real))
    ensures p in ValidPairs(xs, ys) <==>
      exists i :: 0 <= i < |xs| && i < |ys| && xs[i] == Some(p.0) && ys[i] == Some(p.1)
  {
    if xs != [] && ys != [] {
      ValidPairsMember(xs[1..], ys[1..], p);
      if p in ValidPairs(xs[1..], ys[1..]) {
        var i :| 0 <= i < |xs[1..]| && i < |ys[1..]| && xs[1..][i] == Some(p.0) && ys[1..][i] == Some(p.1);
        assert xs[i + 1] == Some(p.0) && ys[i + 1] == Some(p.1);
      }
      if exists i :: 0 <= i < |xs| && i < |ys| && xs[i] == Some(p.0) && ys[i] == Some(p.1) {
        var i :| 0 <= i < |xs| && i < |ys| && xs[i] == Some(p.0) && ys[i] == Some(p.1);
        if i > 0 {
          assert xs[1..][i - 1] == Some(p.0) && ys[1..][i - 1] == Some(p.1);
        }
      }
    }
  }

  /** Values past the end of the shorter list are never consulted. */
  lemma {:induction false} ValidPairsTruncated(xs: seq<Option<real>>, ys: seq<Option<real>>, n: nat)
    requires n <= |xs| && n <= |ys| && (n == |xs| || n == |ys|)
    ensures ValidPairs(xs, ys) == ValidPairs(xs[..n], ys[..n])
  {
    if n > 0 {
      assert xs[..n][1..] == xs[1..][..n - 1];
      assert ys[..n][1..] == ys[1..][..n - 1];
      ValidPairsTruncated(xs[1..], ys[1..], n - 1);
    } else if xs == [] {
      assert xs[..n] == [];
    } else {
      assert ys[..n] == [];
    }
  }

  /** Where no value is missing, every common position yields its pair. */
  lemma {:induction false} ValidPairsComplete(xs: seq<Option<real>>, ys: seq<Option<real>>)
    requires |xs| == |ys|
    requires forall i :: 0 <= i < |xs| ==> xs[i].Some? && ys[i].Some?
    ensures |ValidPairs(xs, ys)| == |xs|
    ensures forall i :: 0 <= i < |xs| ==> ValidPairs(xs, ys)[i] == (xs[i].value, ys[i].value)
  {
    if xs != [] {
      assert forall i :: 0 <= i < |xs[1..]| ==> xs[1..][i] == xs[i + 1] && ys[1..][i] == ys[i + 1];
      ValidPairsComplete(xs[1..], ys[1..]);
    }
  }

  /** The two columns handed to `np.corrcoef`: the first and second values of each pair. */
  function Unzip(pairs: seq<(real, real)>): (r: (seq<real>, seq<real>))
    ensures |r.0| == |pairs| && |r.1| == |pairs|
    ensures forall i :: 0 <= i < |pairs| ==> r.0[i] == pairs[i].0 && r.1[i] == pairs[i].1
  {
    if pairs == [] then ([], [])
    else
      var rest := Unzip(pairs[1..]);
      ([pairs[0].0] + rest.0, [pairs[0].1] + rest.1)
  }

  /**
    What `calculate_correlation` feeds to `np.corrcoef`: None when fewer than
    two positions have both values, otherwise the two columns of those pairs.
  */
  function CorrelationSamples(xs: seq<Option<real>>, ys: seq<Option<real>>): (r: Option<(seq<real>, seq<real>)>)
    ensures r.None? <==> |ValidPairs(xs, ys)| < 2
    ensures r.Some? ==> |r.value.0| == |r.value.1| == |ValidPairs(xs, ys)| >= 2
  {
    var pairs := ValidPairs(xs, ys);
    if |pairs| < 2 then None else Some(Unzip(pairs))
  }

  // ---------------------------------------------------------------- overall and per-year statistics

  /** One row of the per-year statistics frame: a year and its chip-time aggregates in seconds. */
  datatype YearStats = YearStats(
    year: int, count: int, mean: real, median: real, min: real, max: real, p25: real, p75: real)

  /** The dashboard's `years` list and its `statistics.overall` block. */
  datatype Overall = Overall(
    years: seq<int>,
    totalYears: nat,
    yearRange: string,
    overallMedianMinutes: Option<real>,
    overallMedianFormatted: Option<string>,
    fastestYearByWinner: int,
    fastestTime: Option<string>,
    fastestYearByMedian: int,
    fastestMedianTime: Option<string>,
    totalFinishers: int)

  function StatYears(stats: seq<YearStats>): (r: seq<int>)
    ensures |r| == |stats| && forall i :: 0 <= i < |stats| ==> r[i] == stats[i].year
  {
    if stats == [] then [] else StatYears(stats[..|stats| - 1]) + [stats[|stats| - 1].year]
  }

  function Medians(stats: seq<YearStats>): (r: seq<real>)
    ensures |r| == |stats| && forall i :: 0 <= i < |stats| ==> r[i] == stats[i].median
  {
    if stats == [] then [] else Medians(stats[..|stats| - 1]) + [stats[|stats| - 1].median]
  }

  function Minima(stats: seq<YearStats>): (r: seq<real>)
    ensures |r| == |stats| && forall i :: 0 <= i < |stats| ==> r[i] == stats[i].min
  {
    if stats == [] then [] else Minima(stats[..|stats| - 1]) + [stats[|stats| - 1].min]
  }

  /** `stats['count'].sum()`. */
  function TotalCount(stats: seq<YearStats>): int
  {
    if stats == [] then 0 else TotalCount(stats[..|stats| - 1]) + stats[|stats| - 1].count
  }

  function YearKey(y: int): real { y as real }

  /**
    `Series.idxmin()` on a frame with a default index: the position of the
    first occurrence of the smallest value.
  */
  function FirstArgMin(xs: seq<real>): (k: nat)
    requires |xs| > 0
    ensures k < |xs|
    ensures forall j :: 0 <= j < |xs| ==> xs[k] <= xs[j]
    ensures forall j :: 0 <= j < k ==> xs[k] < xs[j]
  {
    if |xs| == 1 then 0
    else
      var k := FirstArgMin(xs[..|xs| - 1]);
      if xs[|xs| - 1] < xs[k] then |xs| - 1 else k
  }

  /** `sorted(stats['year'].tolist())`. */
  function SortedYears(stats: seq<YearStats>): (years: seq<int>)
    ensures |years| == |stats|
  {
    var years := Ordering.SortBy(StatYears(stats), YearKey);
    assert |years| == |multiset(years)| == |stats|;
    years
  }

  /** `year_range`: `min(years)` and `max(years)` of the sorted list are its two ends. */
  function YearRange(years: seq<int>): string
    requires years != []
  {
    IntToString(years[0]) + "-" + IntToString(years[|years| - 1])
  }

  /** The year of the first row holding the smallest value of a column. */
  function FirstYearOfLeast(stats: seq<YearStats>, column: seq<real>): int
    requires |column| == |stats| > 0
  {
    stats[FirstArgMin(column)].year
  }

  /** The overall block of `generate_dashboard_data`; with no statistics rows `min(years)` raises, modelled as None. */
  function OverallStats(stats: seq<YearStats>): (r: Option<Overall>)
    ensures r.None? <==> stats == []
  {
    if stats == [] then None
    else
      var years := SortedYears(stats);
      var centre := PyNum.Mean(Medians(stats));
      Some(Overall(
        years := years,
        totalYears := |years|,
        yearRange := YearRange(years),
        overallMedianMinutes := SecondsToMinutes(Some(centre)),
        overallMedianFormatted := SecondsToMmss(Some(centre)),
        fastestYearByWinner := FirstYearOfLeast(stats, Minima(stats)),
        fastestTime := SecondsToMmss(Some(PyNum.MinOf(Minima(stats)))),
        fastestYearByMedian := FirstYearOfLeast(stats, Medians(stats)),
        fastestMedianTime := SecondsToMmss(Some(PyNum.MinOf(Medians(stats)))),
        totalFinishers := TotalCount(stats)))
  }

  /**
    `years` holds the statistics rows' years in ascending order, `total_years`
    counts them, and `year_range` names the smallest and the largest.
  */
  lemma OverallYears(stats: seq<YearStats>)
    requires stats != []
    ensures var o := OverallStats(stats).value;
      && Ordering.SortedBy(o.years, YearKey)
      && multiset(o.years) == multiset(StatYears(stats))
      && o.totalYears == |stats|
      && o.yearRange == IntToString(o.years[0]) + "-" + IntToString(o.years[|o.years| - 1])
      && (forall i :: 0 <= i < |stats| ==> o.years[0] <= stats[i].year <= o.years[|o.years| - 1])
      && o.years[0] in StatYears(stats) && o.years[|o.years| - 1] in StatYears(stats)
  {
    SortedYearsEnds(stats);
  }

  /** The sorted years run from the smallest year of the rows to the largest. */
  lemma SortedYearsEnds(stats: seq<YearStats>)
    requires stats != []
    ensures var years := SortedYears(stats);
      && Ordering.SortedBy(years, YearKey)
      && multiset(years) == multiset(StatYears(stats))
      && (forall i :: 0 <= i < |stats| ==> years[0] <= stats[i].year <= years[|years| - 1])
      && years[0] in StatYears(stats) && years[|years| - 1] in StatYears(stats)
  {
    var years := SortedYears(stats);
    forall i | 0 <= i < |stats| ensures years[0] <= stats[i].year <= years[|years| - 1] {
      assert StatYears(stats)[i] in multiset(StatYears(stats));
      YearBetween(years, stats[i].year);
    }
    assert years[0] in multiset(years) && years[|years| - 1] in multiset(years);
  }

  /** Every year of an ascending list lies between its two ends. */
  lemma YearBetween(years: seq<int>, y: int)
    requires Ordering.SortedBy(years, YearKey)
    requires y in multiset(years)
    ensures years[0] <= y <= years[|years| - 1]
  {
    var j :| 0 <= j < |years| && years[j] == y;
    assert YearKey(years[0]) <= YearKey(years[j]) <= YearKey(years[|years| - 1]);
  }

  /**
    `overall_median_minutes` is the mean of the per-year medians in minutes,
    which lies between the smallest and the largest median; the formatted
    mean reads back as its whole seconds.
  */
  lemma OverallMedian(stats: seq<YearStats>)
    requires stats != []
    ensures var o := OverallStats(stats).value;
      var centre := PyNum.Mean(Medians(stats));
      && PyNum.MinOf(Medians(stats)) <= centre <= PyNum.MaxOf(Medians(stats))
      && o.overallMedianMinutes.Some?
      && -0.005 <= o.overallMedianMinutes.value - centre / 60.0 <= 0.005
      && Scraper.ParseChipTime(o.overallMedianFormatted.value) == Some(centre.Floor as real)
  {
    PyNum.MeanBetween(Medians(stats));
    ParseSecondsToMmss(PyNum.Mean(Medians(stats)));
  }

  /** The first position holding the least value of a column. */
  predicate FirstLeast(xs: seq<real>, k: int)
  {
    && 0 <= k < |xs|
    && (forall j :: 0 <= j < |xs| ==> xs[k] <= xs[j])
    && (forall j :: 0 <= j < k ==> xs[k] < xs[j])
  }

  /** There is exactly one first position of the least value, and `idxmin` finds it. */
  lemma FirstArgMinUnique(xs: seq<real>, k: int)
    requires |xs| > 0
    ensures FirstLeast(xs, FirstArgMin(xs))
    ensures FirstLeast(xs, k) ==> k == FirstArgMin(xs)
  {
  }

  /** The smallest value of a column is the value at its first least position. */
  lemma LeastValue(xs: seq<real>, k: int)
    requires FirstLeast(xs, k)
    ensures PyNum.MinOf(xs) == xs[k]
  {
    assert PyNum.MinOf(xs) <= xs[k];
  }

  /**
    `fastest_year_by_winner` is the year of the first row whose winning time
    is the smallest, and `fastest_time` shows that time.
  */
  lemma FastestYearByWinner(stats: seq<YearStats>, k: int)
    requires stats != []
    requires FirstLeast(Minima(stats), k)
    ensures var o := OverallStats(stats).value;
      && o.fastestYearByWinner == stats[k].year
      && o.fastestTime == SecondsToMmss(Some(stats[k].min))
  {
    FirstArgMinUnique(Minima(stats), k);
    LeastValue(Minima(stats), k);
  }

  /**
    `fastest_year_by_median` is the year of the first row whose median is
    the smallest, and `fastest_median_time` shows that median.
  */
  lemma FastestYearByMedian(stats: seq<YearStats>, k: int)
    requires stats != []
    requires FirstLeast(Medians(stats), k)
    ensures var o := OverallStats(stats).value;
      && o.fastestYearByMedian == stats[k].year
      && o.fastestMedianTime == SecondsToMmss(Some(stats[k].median))
  {
    FirstArgMinUnique(Medians(stats), k);
    LeastValue(Medians(stats), k);
  }

  /** `total_finishers` adds up the counts: over two runs of rows it is the sum of both totals. */
  lemma {:induction false} TotalCountAppend(a: seq<YearStats>, b: seq<YearStats>)
    ensures TotalCount(a + b) == TotalCount(a) + TotalCount(b)
    decreases |b|
  {
    if b == [] {
      assert a + b == a;
    } else {
      assert (a + b)[..|a + b| - 1] == a + b[..|b| - 1];
      TotalCountAppend(a, b[..|b| - 1]);
    }
  }

  /** The six time columns of a statistics row, in one shape for seconds, minutes and text. */
  datatype Times<T> = Times(min: T, p25: T, median: T, mean: T, p75: T, max: T)

  /** One element of `statistics.by_year`. */
  datatype YearEntry = YearEntry(year: int, count: int, times: Times<Option<real>>, timesFormatted: Times<Option<string>>)

  function YearEntryOf(s: YearStats): YearEntry
  {
    YearEntry(
      s.year, s.count,
      Times(SecondsToMinutes(Some(s.min)), SecondsToMinutes(Some(s.p25)), SecondsToMinutes(Some(s.median)),
            SecondsToMinutes(Some(s.mean)), SecondsToMinutes(Some(s.p75)), SecondsToMinutes(Some(s.max))),
      Times(SecondsToMmss(Some(s.min)), SecondsToMmss(Some(s.p25)), SecondsToMmss(Some(s.median)),
            SecondsToMmss(Some(s.mean)), SecondsToMmss(Some(s.p75)), SecondsToMmss(Some(s.max))))
  }

  /** A time shown both ways: minutes within half a hundredth, text reading back as its whole seconds. */
  predicate Shown(secs: real, minutes: Option<real>, text: Option<string>)
  {
    && minutes.Some? && -0.005 <= minutes.value - secs / 60.0 <= 0.005
    && text.Some? && Scraper.ParseChipTime(text.value) == Some(secs.Floor as real)
  }

  lemma ShownTime(secs: real)
    ensures Shown(secs, SecondsToMinutes(Some(secs)), SecondsToMmss(Some(secs)))
  {
    ParseSecondsToMmss(secs);
  }

  /** Each per-year entry keeps the year and count and shows all six times. */
  lemma YearEntryShown(s: YearStats)
    ensures var e := YearEntryOf(s);
      && e.year == s.year && e.count == s.count
      && Shown(s.min, e.times.min, e.timesFormatted.min)
      && Shown(s.p25, e.times.p25, e.timesFormatted.p25)
      && Shown(s.median, e.times.median, e.timesFormatted.median)
      && Shown(s.mean, e.times.mean, e.timesFormatted.mean)
      && Shown(s.p75, e.times.p75, e.timesFormatted.p75)
      && Shown(s.max, e.times.max, e.timesFormatted.max)
  {
    ShownTime(s.min);
    ShownTime(s.p25);
    ShownTime(s.median);
    ShownTime(s.mean);
    ShownTime(s.p75);
    ShownTime(s.max);
  }

  /** The `statistics.by_year` loop: one entry per statistics row, in row order. */
  method ByYearEntries(stats: seq<YearStats>) returns (entries: seq<YearEntry>)
    ensures |entries| == |stats|
    ensures forall i :: 0 <= i < |stats| ==> entries[i] == YearEntryOf(stats[i])
  {
    entries := [];
    for i := 0 to |stats|
      invariant |entries| == i
      invariant forall j :: 0 <= j < i ==> entries[j] == YearEntryOf(stats[j])
    {
      var entry := YearEntryOf(stats[i]);
      entries := entries + [entry];
    }
  }

  /** The median column in minutes, the second input of the wind correlation. */
  function MedianMinutes(entries: seq<YearEntry>): (r: seq<Option<real>>)
    ensures |r| == |entries| && forall i :: 0 <= i < |entries| ==> r[i] == entries[i].times.median
  {
    if entries == [] then [] else MedianMinutes(entries[..|entries| - 1]) + [entries[|entries| - 1].times.median]
  }

  // ---------------------------------------------------------------- rider performances

  /** A row of the rider query: a result that has a chip time. */
  datatype RiderRow = RiderRow(
    name: string, year: int, chipTimeSeconds: real, place: Option<int>, gender: string, age: Option<int>)

  datatype Performance = Performance(
    year: int, timeSeconds: real, timeFormatted: Option<string>, place: int, gender: string, age: Option<int>)

  datatype Rider = Rider(name: string, yearsParticipated: nat, performances: seq<Performance>)

  /**
    Whether the frame holds the `age` column as floats: pandas reads an
    integer column that has both values and NULLs as floats, with NaN for
    each NULL.
  */
  predicate AgesAsFloat(rows: seq<RiderRow>)
  {
    (exists i :: 0 <= i < |rows| && rows[i].age.None?) && (exists i :: 0 <= i < |rows| && rows[i].age.Some?)
  }

  /**
    One performance record. `int(row['place'])` fails on a missing place
    (NaN or None), and `int(row['age'])` fails on a missing age that pandas
    turned into NaN, which the `is not None` test lets through; a failure is
    None. Otherwise the time is rounded to one decimal and shown as `M:SS`.
  */
  function PerformanceOf(row: RiderRow, agesAsFloat: bool): (r: Option<Performance>)
    ensures r.None? <==> row.place.None? || (agesAsFloat && row.age.None?)
  {
    if row.place.None? || (agesAsFloat && row.age.None?) then None
    else Some(RecordOf(row))
  }

  /** The record of a row whose place is present. */
  function RecordOf(row: RiderRow): (p: Performance)
    requires row.place.Some?
    ensures p.year == row.year && p.place == row.place.value && p.gender == row.gender && p.age == row.age
    ensures -0.05 <= p.timeSeconds - row.chipTimeSeconds <= 0.05
  {
    assert PyNum.Pow10(1) == 10;
    Performance(
      year := row.year,
      timeSeconds := PyNum.Round(row.chipTimeSeconds, 1),
      timeFormatted := SecondsToMmss(Some(row.chipTimeSeconds)),
      place := row.place.value,
      gender := row.gender,
      age := row.age)
  }

  function PerformanceYear(p: Performance): real { p.year as real }

  function NamesOf(rows: seq<RiderRow>): (r: seq<string>)
    ensures |r| == |rows| && forall i :: 0 <= i < |rows| ==> r[i] == rows[i].name
  {
    if rows == [] then [] else NamesOf(rows[..|rows| - 1]) + [rows[|rows| - 1].name]
  }

  /** The group of `groupby('name')` for one name: that name's rows, in row order. */
  function Group(rows: seq<RiderRow>, name: string): (g: seq<RiderRow>)
    ensures |g| <= |rows|
    ensures forall row :: row in g <==> row in rows && row.name == name
  {
    if rows == [] then []
    else
      var last := rows[|rows| - 1];
      var g := Group(rows[..|rows| - 1], name) + (if last.name == name then [last] else []);
      assert rows == rows[..|rows| - 1] + [last];
      g
  }

  /** The performance records of a group in row order; None as soon as one fails. */
  function Performances(group: seq<RiderRow>, agesAsFloat: bool): (r: Option<seq<Performance>>)
    ensures r.Some? ==> |r.value| == |group|
  {
    if group == [] then Some([])
    else PerformancesStep(Performances(group[..|group| - 1], agesAsFloat), group[|group| - 1], agesAsFloat)
  }

  /** One more row: its record is appended; a failure stays a failure. */
  function PerformancesStep(acc: Option<seq<Performance>>, row: RiderRow, agesAsFloat: bool): (r: Option<seq<Performance>>)
    ensures acc.Some? && r.Some? ==> |r.value| == |acc.value| + 1
  {
    match acc
    case None => None
    case Some(ps) =>
      match PerformanceOf(row, agesAsFloat)
      case None => None
      case Some(p) => Some(ps + [p])
  }

  /** A failing row makes the group's records fail. */
  lemma {:induction false} PerformancesFailAt(group: seq<RiderRow>, m: nat, agesAsFloat: bool)
    requires m < |group| && PerformanceOf(group[m], agesAsFloat).None?
    ensures Performances(group, agesAsFloat).None?
  {
    var init := group[..|group| - 1];
    if m < |init| {
      assert init[m] == group[m];
      PerformancesFailAt(init, m, agesAsFloat);
    }
  }

  /** Failing records have a failing row. */
  lemma {:induction false} PerformancesFailWitness(group: seq<RiderRow>, agesAsFloat: bool) returns (m: nat)
    requires Performances(group, agesAsFloat).None?
    ensures m < |group| && PerformanceOf(group[m], agesAsFloat).None?
  {
    var init := group[..|group| - 1];
    if Performances(init, agesAsFloat).None? {
      m := PerformancesFailWitness(init, agesAsFloat);
      assert group[m] == init[m];
    } else {
      m := |group| - 1;
    }
  }

  /** The records fail exactly when one row's record fails. */
  lemma PerformancesFail(group: seq<RiderRow>, agesAsFloat: bool)
    ensures Performances(group, agesAsFloat).None? <==>
      exists i :: 0 <= i < |group| && PerformanceOf(group[i], agesAsFloat).None?
  {
    if Performances(group, agesAsFloat).None? {
      var m := PerformancesFailWitness(group, agesAsFloat);
    }
    forall i | 0 <= i < |group| && PerformanceOf(group[i], agesAsFloat).None?
      ensures Performances(group, agesAsFloat).None?
    {
      PerformancesFailAt(group, i, agesAsFloat);
    }
  }

  /** Otherwise they are the rows' records, in row order. */
  lemma {:induction false} PerformancesValues(group: seq<RiderRow>, agesAsFloat: bool)
    requires Performances(group, agesAsFloat).Some?
    ensures forall i :: 0 <= i < |group| ==>
      PerformanceOf(group[i], agesAsFloat).Some?
      && Performances(group, agesAsFloat).value[i] == PerformanceOf(group[i], agesAsFloat).value
  {
    if group != [] {
      var init := group[..|group| - 1];
      PerformancesValues(init, agesAsFloat);
      forall i | 0 <= i < |init| ensures init[i] == group[i] { }
    }
  }

  /** A rider's entry: the group's records sorted by year, and how many there are. */
  function RiderOf(name: string, group: seq<RiderRow>, agesAsFloat: bool): (r: Option<Rider>)
    ensures r.Some? ==> r.value.name == name && r.value.yearsParticipated == |r.value.performances| == |group|
    ensures r.Some? ==> Ordering.SortedBy(r.value.performances, PerformanceYear)
    ensures r.None? <==> Performances(group, agesAsFloat).None?
    ensures r.Some? ==> multiset(r.value.performances) == multiset(Performances(group, agesAsFloat).value)
  {
    match Performances(group, agesAsFloat)
    case None => None
    case Some(ps) =>
      var sorted := Ordering.SortBy(ps, PerformanceYear);
      assert |sorted| == |multiset(sorted)| == |ps|;
      Some(Rider(name, |sorted|, sorted))
  }

  /** The riders of the first names of `names`: those with at least two rows, in `names` order. */
  function RidersOf(rows: seq<RiderRow>, names: seq<string>, agesAsFloat: bool): Option<seq<Rider>>
  {
    if names == [] then Some([])
    else RidersStep(RidersOf(rows, names[..|names| - 1], agesAsFloat), rows, names[|names| - 1], agesAsFloat)
  }

  /** One more name: its rider is added when it has at least two rows; a failure stays a failure. */
  function RidersStep(acc: Option<seq<Rider>>, rows: seq<RiderRow>, name: string, agesAsFloat: bool): Option<seq<Rider>>
  {
    match acc
    case None => None
    case Some(done) =>
      var group := Group(rows, name);
      if |group| < 2 then Some(done)
      else
        match RiderOf(name, group, agesAsFloat)
        case None => None
        case Some(r) => Some(done + [r])
  }

  /** `extract_rider_performances` over the query rows, with the frame's `age` column as given. */
  function RiderPerformances(rows: seq<RiderRow>, agesAsFloat: bool): Option<seq<Rider>>
  {
    RidersOf(rows, Ordering.SortedDistinctNames(NamesOf(rows)), agesAsFloat)
  }

  /** The names of the riders, in list order. */
  function RiderNames(riders: seq<Rider>): (r: seq<string>)
    ensures |r| == |riders| && forall i :: 0 <= i < |riders| ==> r[i] == riders[i].name
  {
    seq(|riders|, i requires 0 <= i < |riders| => riders[i].name)
  }

  /** A name with at least two rows whose records fail. */
  predicate FailingName(rows: seq<RiderRow>, name: string, agesAsFloat: bool)
  {
    |Group(rows, name)| >= 2 && Performances(Group(rows, name), agesAsFloat).None?
  }

  /** A failing name makes the whole list fail. */
  lemma {:induction false} RidersOfFailAt(rows: seq<RiderRow>, names: seq<string>, k: nat, agesAsFloat: bool)
    requires k < |names| && FailingName(rows, names[k], agesAsFloat)
    ensures RidersOf(rows, names, agesAsFloat).None?
  {
    var init := names[..|names| - 1];
    if k < |init| {
      assert init[k] == names[k];
      RidersOfFailAt(rows, init, k, agesAsFloat);
    }
  }

  /** A failing list has a failing name. */
  lemma {:induction false} RidersOfFailWitness(rows: seq<RiderRow>, names: seq<string>, agesAsFloat: bool) returns (k: nat)
    requires RidersOf(rows, names, agesAsFloat).None?
    ensures k < |names| && FailingName(rows, names[k], agesAsFloat)
  {
    var init := names[..|names| - 1];
    if RidersOf(rows, init, agesAsFloat).None? {
      k := RidersOfFailWitness(rows, init, agesAsFloat);
      assert names[k] == init[k];
    } else {
      k := |names| - 1;
    }
  }

  /** A name greater than every name of a strictly sorted list can follow it. */
  lemma AppendName(s: seq<string>, x: string)
    requires Ordering.StrictlySortedNames(s)
    requires forall y :: y in s ==> Ordering.StrLt(y, x)
    ensures Ordering.StrictlySortedNames(s + [x])
  {
    forall i, j | 0 <= i < j < |s + [x]| ensures Ordering.StrLt((s + [x])[i], (s + [x])[j]) {
      if j == |s| {
        assert s[i] in s;
      }
    }
  }

  /** One step of `RidersOf`: the last name adds its rider when it has at least two rows. */
  lemma RidersOfLast(rows: seq<RiderRow>, names: seq<string>, agesAsFloat: bool)
    requires names != [] && RidersOf(rows, names, agesAsFloat).Some?
    ensures var init, name := names[..|names| - 1], names[|names| - 1];
      && RidersOf(rows, init, agesAsFloat).Some?
      && (|Group(rows, name)| >= 2 ==> RiderOf(name, Group(rows, name), agesAsFloat).Some?)
      && RidersOf(rows, names, agesAsFloat).value
         == RidersOf(rows, init, agesAsFloat).value
            + if |Group(rows, name)| >= 2 then [RiderOf(name, Group(rows, name), agesAsFloat).value] else []
  {
  }

  /** Appending one rider appends its name. */
  lemma RiderNamesSnoc(done: seq<Rider>, r: Rider)
    ensures RiderNames(done + [r]) == RiderNames(done) + [r.name]
  {
    assert (done + [r])[..|done|] == done;
  }

  /** A name appears among the riders exactly when it is one of `names` with at least two rows. */
  lemma {:induction false} RidersOfNames(rows: seq<RiderRow>, names: seq<string>, agesAsFloat: bool)
    requires RidersOf(rows, names, agesAsFloat).Some?
    ensures forall n :: n in RiderNames(RidersOf(rows, names, agesAsFloat).value) <==> n in names && |Group(rows, n)| >= 2
  {
    if names != [] {
      var init, name := names[..|names| - 1], names[|names| - 1];
      RidersOfLast(rows, names, agesAsFloat);
      RidersOfNames(rows, init, agesAsFloat);
      var done := RidersOf(rows, init, agesAsFloat).value;
      assert names == init + [name];
      if |Group(rows, name)| >= 2 {
        RiderNamesSnoc(done, RiderOf(name, Group(rows, name), agesAsFloat).value);
      }
    }
  }

  /** Over strictly sorted names the riders are strictly sorted by name. */
  lemma {:induction false} RidersOfSorted(rows: seq<RiderRow>, names: seq<string>, agesAsFloat: bool)
    requires Ordering.StrictlySortedNames(names)
    requires RidersOf(rows, names, agesAsFloat).Some?
    ensures Ordering.StrictlySortedNames(RiderNames(RidersOf(rows, names, agesAsFloat).value))
  {
    if names != [] {
      var init, name := names[..|names| - 1], names[|names| - 1];
      RidersOfLast(rows, names, agesAsFloat);
      assert Ordering.StrictlySortedNames(init);
      RidersOfSorted(rows, init, agesAsFloat);
      if |Group(rows, name)| >= 2 {
        var done := RidersOf(rows, init, agesAsFloat).value;
        RidersOfNames(rows, init, agesAsFloat);
        RiderNamesSnoc(done, RiderOf(name, Group(rows, name), agesAsFloat).value);
        forall y | y in RiderNames(done) ensures Ordering.StrLt(y, name) {
          var j :| 0 <= j < |init| && init[j] == y;
          assert names[j] == y;
        }
        AppendName(RiderNames(done), name);
      }
    }
  }

  /** Each rider is the entry built from the group of its own name. */
  lemma {:induction false} RidersOfEntries(rows: seq<RiderRow>, names: seq<string>, agesAsFloat: bool)
    requires RidersOf(rows, names, agesAsFloat).Some?
    ensures var l := RidersOf(rows, names, agesAsFloat).value;
      forall i :: 0 <= i < |l| ==> RiderOf(l[i].name, Group(rows, l[i].name), agesAsFloat) == Some(l[i])
  {
    if names != [] {
      var init := names[..|names| - 1];
      RidersOfLast(rows, names, agesAsFloat);
      RidersOfEntries(rows, init, agesAsFloat);
    }
  }

  /**
    The riders of `extract_rider_performances` are strictly ascending by
    name, so the closing sort by name leaves them as they are.
  */
  lemma RiderPerformancesSorted(rows: seq<RiderRow>, agesAsFloat: bool)
    requires RiderPerformances(rows, agesAsFloat).Some?
    ensures Ordering.StrictlySortedNames(RiderNames(RiderPerformances(rows, agesAsFloat).value))
  {
    RidersOfSorted(rows, Ordering.SortedDistinctNames(NamesOf(rows)), agesAsFloat);
  }

  /** A name has a rider exactly when the rows hold it at least twice. */
  lemma RiderPerformancesNames(rows: seq<RiderRow>, agesAsFloat: bool)
    requires RiderPerformances(rows, agesAsFloat).Some?
    ensures forall n :: n in RiderNames(RiderPerformances(rows, agesAsFloat).value) <==>
      n in NamesOf(rows) && |Group(rows, n)| >= 2
  {
    RidersOfNames(rows, Ordering.SortedDistinctNames(NamesOf(rows)), agesAsFloat);
  }

  /**
    Each rider's performances number its rows (at least two), are sorted by
    year, and are counted in `years_participated`.
  */
  lemma RiderPerformancesEntries(rows: seq<RiderRow>, agesAsFloat: bool)
    requires RiderPerformances(rows, agesAsFloat).Some?
    ensures var l := RiderPerformances(rows, agesAsFloat).value;
      forall i :: 0 <= i < |l| ==>
        && l[i].yearsParticipated == |l[i].performances| == |Group(rows, l[i].name)| >= 2
        && Ordering.SortedBy(l[i].performances, PerformanceYear)
  {
    var l := RiderPerformances(rows, agesAsFloat).value;
    RiderPerformancesNames(rows, agesAsFloat);
    RidersOfEntries(rows, Ordering.SortedDistinctNames(NamesOf(rows)), agesAsFloat);
    forall i | 0 <= i < |l| ensures |Group(rows, l[i].name)| >= 2 {
      assert RiderNames(l)[i] == l[i].name;
    }
  }

  /** Every performance of a rider entry is the record of one row of its group. */
  lemma RiderOfRow(name: string, group: seq<RiderRow>, agesAsFloat: bool, p: Performance) returns (m: nat)
    requires RiderOf(name, group, agesAsFloat).Some?
    requires p in RiderOf(name, group, agesAsFloat).value.performances
    ensures m < |group| && PerformanceOf(group[m], agesAsFloat) == Some(p)
  {
    var ps := Performances(group, agesAsFloat).value;
    assert p in multiset(RiderOf(name, group, agesAsFloat).value.performances);
    assert p in multiset(ps);
    m :| 0 <= m < |ps| && ps[m] == p;
    PerformancesValues(group, agesAsFloat);
  }

  /** Every performance of a rider is the record of one of that rider's rows. */
  lemma RiderPerformanceRow(rows: seq<RiderRow>, agesAsFloat: bool, i: nat, p: Performance)
    requires RiderPerformances(rows, agesAsFloat).Some?
    requires i < |RiderPerformances(rows, agesAsFloat).value|
    requires p in RiderPerformances(rows, agesAsFloat).value[i].performances
    ensures exists row :: row in rows && row.name == RiderPerformances(rows, agesAsFloat).value[i].name
                          && PerformanceOf(row, agesAsFloat) == Some(p)
  {
    var l := RiderPerformances(rows, agesAsFloat).value;
    RidersOfEntries(rows, Ordering.SortedDistinctNames(NamesOf(rows)), agesAsFloat);
    var group := Group(rows, l[i].name);
    var m := RiderOfRow(l[i].name, group, agesAsFloat, p);
    assert group[m] in group;
  }

  /** A failing extraction has a failing row of a name that occurs at least twice. */
  lemma RiderPerformancesFailWitness(rows: seq<RiderRow>, agesAsFloat: bool) returns (i: nat)
    requires RiderPerformances(rows, agesAsFloat).None?
    ensures i < |rows| && |Group(rows, rows[i].name)| >= 2 && PerformanceOf(rows[i], agesAsFloat).None?
  {
    var names := Ordering.SortedDistinctNames(NamesOf(rows));
    var k := RidersOfFailWitness(rows, names, agesAsFloat);
    var group := Group(rows, names[k]);
    PerformancesFail(group, agesAsFloat);
    var m :| 0 <= m < |group| && PerformanceOf(group[m], agesAsFloat).None?;
    assert group[m] in group;
    i :| 0 <= i < |rows| && rows[i] == group[m];
  }

  /** A failing row of a name that occurs at least twice fails the extraction. */
  lemma RiderPerformancesFailAt(rows: seq<RiderRow>, agesAsFloat: bool, i: nat)
    requires i < |rows| && |Group(rows, rows[i].name)| >= 2 && PerformanceOf(rows[i], agesAsFloat).None?
    ensures RiderPerformances(rows, agesAsFloat).None?
  {
    var names := Ordering.SortedDistinctNames(NamesOf(rows));
    RowNameFails(rows, agesAsFloat, i);
    var k := NameIndex(rows, i);
    RidersOfFailAt(rows, names, k, agesAsFloat);
  }

  /** The name of a failing row is a failing name. */
  lemma RowNameFails(rows: seq<RiderRow>, agesAsFloat: bool, i: nat)
    requires i < |rows| && |Group(rows, rows[i].name)| >= 2 && PerformanceOf(rows[i], agesAsFloat).None?
    ensures FailingName(rows, rows[i].name, agesAsFloat)
  {
    var group := Group(rows, rows[i].name);
    assert rows[i] in group;
    PerformancesFail(group, agesAsFloat);
  }

  /** Every row's name has a place among the group names. */
  lemma NameIndex(rows: seq<RiderRow>, i: nat) returns (k: nat)
    requires i < |rows|
    ensures var names := Ordering.SortedDistinctNames(NamesOf(rows));
      k < |names| && names[k] == rows[i].name
  {
    assert NamesOf(rows)[i] == rows[i].name;
    var names := Ordering.SortedDistinctNames(NamesOf(rows));
    assert rows[i].name in NamesOf(rows);
    assert rows[i].name in names;
    k :| 0 <= k < |names| && names[k] == rows[i].name;
  }

  /**
    The extraction fails exactly when a row of a name that occurs at least
    twice has no record.
  */
  lemma RiderPerformancesFail(rows: seq<RiderRow>, agesAsFloat: bool)
    ensures RiderPerformances(rows, agesAsFloat).None? <==>
      exists i :: 0 <= i < |rows| && |Group(rows, rows[i].name)| >= 2 && PerformanceOf(rows[i], agesAsFloat).None?
  {
    if RiderPerformances(rows, agesAsFloat).None? {
      var i := RiderPerformancesFailWitness(rows, agesAsFloat);
    }
    forall i | 0 <= i < |rows| && |Group(rows, rows[i].name)| >= 2 && PerformanceOf(rows[i], agesAsFloat).None?
      ensures RiderPerformances(rows, agesAsFloat).None?
    {
      RiderPerformancesFailAt(rows, agesAsFloat, i);
    }
  }

  /** The first `k + 1` names: one more step. */
  lemma RidersOfPrefix(rows: seq<RiderRow>, names: seq<string>, k: nat, agesAsFloat: bool)
    requires k < |names|
    ensures RidersOf(rows, names[..k + 1], agesAsFloat)
         == RidersStep(RidersOf(rows, names[..k], agesAsFloat), rows, names[k], agesAsFloat)
  {
    assert names[..k + 1][..k] == names[..k];
  }

  /** The first `j + 1` rows of a group: one more step. */
  lemma PerformancesPrefix(group: seq<RiderRow>, j: nat, agesAsFloat: bool)
    requires j < |group|
    ensures Performances(group[..j + 1], agesAsFloat)
         == PerformancesStep(Performances(group[..j], agesAsFloat), group[j], agesAsFloat)
  {
    assert group[..j + 1][..j] == group[..j];
  }

  /** The inner loop of `extract_rider_performances`: one record per row of the group, in order. */
  method GroupPerformances(group: seq<RiderRow>, agesAsFloat: bool) returns (performances: Option<seq<Performance>>)
    ensures performances == Performances(group, agesAsFloat)
  {
    var ps: seq<Performance> := [];
    var j := 0;
    while j < |group|
      invariant 0 <= j <= |group|
      invariant Performances(group[..j], agesAsFloat) == Some(ps)
    {
      PerformancesPrefix(group, j, agesAsFloat);
      var p := PerformanceOf(group[j], agesAsFloat);
      if p.None? {
        PerformancesFail(group, agesAsFloat);
        return None;
      }
      ps := ps + [p.value];
      j := j + 1;
    }
    assert group[..j] == group;
    performances := Some(ps);
  }

  /** Once the first names fail, all of them fail. */
  lemma {:induction false} RidersOfFailExtends(rows: seq<RiderRow>, names: seq<string>, k: nat, agesAsFloat: bool)
    requires k <= |names| && RidersOf(rows, names[..k], agesAsFloat).None?
    ensures RidersOf(rows, names, agesAsFloat).None?
    decreases |names|
  {
    if k < |names| {
      var init := names[..|names| - 1];
      assert init[..k] == names[..k];
      RidersOfFailExtends(rows, init, k, agesAsFloat);
    } else {
      assert names[..k] == names;
    }
  }

  /** The body of the outer loop for one name. */
  method AddRider(rows: seq<RiderRow>, name: string, agesAsFloat: bool, list: seq<Rider>) returns (next: Option<seq<Rider>>)
    ensures next == RidersStep(Some(list), rows, name, agesAsFloat)
  {
    var group := Group(rows, name);
    if |group| < 2 {
      return Some(list);
    }
    var collected := GroupPerformances(group, agesAsFloat);
    if collected.None? {
      return None;
    }
    var performances := Ordering.SortBy(collected.value, PerformanceYear);
    next := Some(list + [Rider(name, |performances|, performances)]);
  }

  /**
    The outer loop of `extract_rider_performances`, over the groups in name
    order: a group of at least two rows has its records collected and then
    sorted by year in place; a record that fails ends the loop with the
    exception, modelled as None.
  */
  method CollectRiders(rows: seq<RiderRow>, agesAsFloat: bool) returns (riders: Option<seq<Rider>>)
    ensures riders == RiderPerformances(rows, agesAsFloat)
  {
    var names := Ordering.SortedDistinctNames(NamesOf(rows));
    var list: seq<Rider> := [];
    var k := 0;
    while k < |names|
      invariant 0 <= k <= |names|
      invariant RidersOf(rows, names[..k], agesAsFloat) == Some(list)
    {
      RidersOfPrefix(rows, names, k, agesAsFloat);
      var next := AddRider(rows, names[k], agesAsFloat, list);
      if next.None? {
        RidersOfFailExtends(rows, names, k + 1, agesAsFloat);
        return None;
      }
      list := next.value;
      k := k + 1;
    }
    assert names[..k] == names;
    riders := Some(list);
  }

  /** `extract_rider_performances` as written, with the frame's `age` column as pandas reads it. */
  method ExtractRiderPerformances(rows: seq<RiderRow>) returns (riders: Option<seq<Rider>>)
    ensures riders == RiderPerformances(rows, AgesAsFloat(rows))
  {
    riders := CollectRiders(rows, AgesAsFloat(rows));
  }

  /**
    As written, one missing age among rows that also hold ages makes the
    whole extraction fail once that rider has at least two rows: the NaN
    passes the `is not None` test and `int()` rejects it.
  */
  lemma MissingAgeFails(rows: seq<RiderRow>, i: nat, j: nat)
    requires i < |rows| && j < |rows|
    requires rows[i].age.None? && rows[j].age.Some?
    requires |Group(rows, rows[i].name)| >= 2
    ensures RiderPerformances(rows, AgesAsFloat(rows)) == None
  {
    RiderPerformancesFail(rows, AgesAsFloat(rows));
  }

  /**
    The extraction the age test evidently intends: a missing age stays
    missing. It keeps the rider performances as long as every place is
    present.
  */
  method ExtractRiderPerformancesKeepingAges(rows: seq<RiderRow>) returns (riders: Option<seq<Rider>>)
    ensures riders == RiderPerformances(rows, false)
  {
    riders := CollectRiders(rows, false);
  }

  /**
    With ages kept as given, the extraction fails only for a missing place,
    and every performance carries the year, place and age of its own row.
  */
  lemma KeepingAgesSpec(rows: seq<RiderRow>)
    ensures RiderPerformances(rows, false).None? <==>
      exists i :: 0 <= i < |rows| && |Group(rows, rows[i].name)| >= 2 && rows[i].place.None?
    ensures RiderPerformances(rows, false).Some? ==>
      var l := RiderPerformances(rows, false).value;
      forall i, p :: 0 <= i < |l| && p in l[i].performances ==>
        exists row :: (row in rows && row.name == l[i].name
          && row.place == Some(p.place) && p.year == row.year && p.age == row.age)
  {
    RiderPerformancesFail(rows, false);
    if RiderPerformances(rows, false).Some? {
      var l := RiderPerformances(rows, false).value;
      forall i, p | 0 <= i < |l| && p in l[i].performances
        ensures exists row :: (row in rows && row.name == l[i].name
          && row.place == Some(p.place) && p.year == row.year && p.age == row.age)
      {
        KeptAgeRow(rows, i, p);
      }
    }
  }

  /** One performance of the corrected extraction and the row it comes from. */
  lemma KeptAgeRow(rows: seq<RiderRow>, i: nat, p: Performance)
    requires RiderPerformances(rows, false).Some?
    requires i < |RiderPerformances(rows, false).value|
    requires p in RiderPerformances(rows, false).value[i].performances
    ensures exists row :: (row in rows && row.name == RiderPerformances(rows, false).value[i].name
      && row.place == Some(p.place) && p.year == row.year && p.age == row.age)
  {
    var name := RiderPerformances(rows, false).value[i].name;
    RiderPerformanceRow(rows, false, i, p);
    var row :| row in rows && row.name == name && PerformanceOf(row, false) == Some(p);
    assert row.place == Some(p.place) && p.year == row.year && p.age == row.age;
  }

  /** Two results of one rider without an age, beside another rider's result with one. */
  function MissingAgeRows(): seq<RiderRow>
  {
    [ RiderRow("A", 2019, 3600.0, Some(1), "M", None),
      RiderRow("A", 2020, 3500.0, Some(2), "M", None),
      RiderRow("B", 2020, 4000.0, Some(3), "F", Some(40)) ]
  }

  /** As written, the extraction fails on these rows. */
  lemma MissingAgeExample()
    ensures RiderPerformances(MissingAgeRows(), AgesAsFloat(MissingAgeRows())) == None
  {
    var rows := MissingAgeRows();
    assert Group(rows, "A") == [rows[0], rows[1]] by {
      assert rows[..2][..1] == [rows[0]];
      assert rows[..2] == [rows[0], rows[1]];
    }
    MissingAgeFails(rows, 0, 2);
  }

  /** With ages kept as given, it succeeds on the same rows. */
  lemma MissingAgeExampleKept()
    ensures RiderPerformances(MissingAgeRows(), false).Some?
  {
    var rows := MissingAgeRows();
    if RiderPerformances(rows, false).None? {
      var i := RiderPerformancesFailWitness(rows, false);
    }
  }
}
