/**
  The results database as two in-memory tables: inserting a batch (with
  the replace-by-year option), deleting and clearing, the queries on years
  and counts, and the percentile pick over one year's chip times.
*/
module Database {
  import opened Wrappers
  import opened Scraper
  import opened Weather
  import Ordering
  import PyNum
  import PyText

  function RaceYear(r: RaceResult): int { r.year }
  function WeatherYear(r: WeatherRecord): int { r.year }

  // ---------------------------------------------------------------- rows by year

  /** The rows whose year is not one of `years`, in table order (`DELETE ... WHERE year = ?`). */
  function Without<T>(rows: seq<T>, yearOf: T -> int, years: set<int>): seq<T>
  {
    if rows == [] then []
    else
      var last := rows[|rows| - 1];
      Without(rows[..|rows| - 1], yearOf, years) + (if yearOf(last) in years then [] else [last])
  }

  /** A row survives exactly when its year is not deleted. */
  lemma {:induction false} WithoutMembers<T>(rows: seq<T>, yearOf: T -> int, years: set<int>)
    ensures forall x :: x in Without(rows, yearOf, years) <==> x in rows && yearOf(x) !in years
  {
    if rows != [] {
      WithoutMembers(rows[..|rows| - 1], yearOf, years);
      assert rows == rows[..|rows| - 1] + [rows[|rows| - 1]];
    }
  }

  /** Deleting one set of years and then another deletes both. */
  lemma {:induction false} WithoutUnion<T>(rows: seq<T>, yearOf: T -> int, a: set<int>, b: set<int>)
    ensures Without(Without(rows, yearOf, a), yearOf, b) == Without(rows, yearOf, a + b)
  {
    if rows != [] {
      var init, last := rows[..|rows| - 1], rows[|rows| - 1];
      WithoutUnion(init, yearOf, a, b);
      var w := Without(init, yearOf, a);
      if yearOf(last) !in a {
        assert (w + [last])[..|w|] == w;
      } else {
        assert Without(rows, yearOf, a) == w + [] == w;
        assert Without(rows, yearOf, a + b) == Without(init, yearOf, a + b) + [];
      }
    }
  }

  /** Deleting years no row has changes nothing. */
  lemma {:induction false} WithoutAbsent<T>(rows: seq<T>, yearOf: T -> int, years: set<int>)
    requires forall k :: 0 <= k < |rows| ==> yearOf(rows[k]) !in years
    ensures Without(rows, yearOf, years) == rows
  {
    if rows != [] {
      WithoutAbsent(rows[..|rows| - 1], yearOf, years);
    }
  }

  /**
    `set(r.get('year') for r in rows if r.get('year'))`: the years of the
    batch, leaving out the falsy year 0.
  */
  function TruthyYears<T>(rows: seq<T>, yearOf: T -> int): set<int>
  {
    set k | 0 <= k < |rows| && yearOf(rows[k]) != 0 :: yearOf(rows[k])
  }

  /** The years that have race rows. */
  function RaceYears(rows: seq<RaceResult>): set<int>
  {
    set k | 0 <= k < |rows| :: rows[k].year
  }

  /** `SELECT COUNT(*) ... WHERE year = ?` */
  function YearCount(rows: seq<RaceResult>, year: int): nat
  {
    if rows == [] then 0
    else YearCount(rows[..|rows| - 1], year) + (if rows[|rows| - 1].year == year then 1 else 0)
  }

  /** The count is positive exactly when some row has the year. */
  lemma {:induction false} YearCountPositive(rows: seq<RaceResult>, year: int)
    ensures YearCount(rows, year) > 0 <==> year in RaceYears(rows)
  {
    if rows != [] {
      var init := rows[..|rows| - 1];
      YearCountPositive(init, year);
      if year in RaceYears(init) {
        var k :| 0 <= k < |init| && init[k].year == year;
        assert rows[k].year == year;
      }
      if year in RaceYears(rows) && rows[|rows| - 1].year != year {
        var k :| 0 <= k < |rows| && rows[k].year == year;
        assert init[k].year == year;
      }
    }
  }

  // ---------------------------------------------------------------- the tables after an insert

  /**
    The race table after `insert_race_results`: with `replace_existing` and
    a non-empty batch, the rows of every truthy batch year are deleted
    first (deleting a year without rows changes nothing, so the
    `year_exists` test does not matter); then the batch is appended in order.
  */
  function RaceTableAfterInsert(table: seq<RaceResult>, results: seq<RaceResult>, replaceExisting: bool): seq<RaceResult>
  {
    var replaced := if replaceExisting && results != [] then TruthyYears(results, RaceYear) else {};
    Without(table, RaceYear, replaced) + results
  }

  /**
    The weather table after `insert_weather_data`: the same, except that a
    batch year is replaced only when the RACE table holds it, because
    `year_exists` counts race rows.
  */
  function WeatherTableAfterInsert(table: seq<WeatherRecord>, raceTable: seq<RaceResult>,
                                   records: seq<WeatherRecord>, replaceExisting: bool): seq<WeatherRecord>
  {
    var replaced := if replaceExisting && records != [] then TruthyYears(records, WeatherYear) * RaceYears(raceTable) else {};
    Without(table, WeatherYear, replaced) + records
  }

  /**
    Replacing race rows: the batch ends the table, in batch order, and an
    old row stays exactly when its year is falsy or no batch row has it.
  */
  lemma RaceReplace(table: seq<RaceResult>, results: seq<RaceResult>)
    ensures var after := RaceTableAfterInsert(table, results, true);
      && |after| >= |results|
      && after[|after| - |results|..] == results
      && forall x :: x in after[..|after| - |results|] <==>
           x in table && (x.year == 0 || forall k :: 0 <= k < |results| ==> results[k].year != x.year)
  {
    var replaced := if results != [] then TruthyYears(results, RaceYear) else {};
    var kept := Without(table, RaceYear, replaced);
    WithoutMembers(table, RaceYear, replaced);
    assert (kept + results)[..|kept|] == kept;
  }

  /** Without `replace_existing` the batch is appended and nothing is deleted. */
  lemma RaceAppend(table: seq<RaceResult>, results: seq<RaceResult>)
    ensures RaceTableAfterInsert(table, results, false) == table + results
  {
    WithoutAbsent(table, RaceYear, {});
  }

  /**
    Replacing weather rows: an old weather row stays exactly when its year
    is falsy, is not a batch year, or has no race rows, so weather rows of
    a year without race rows are never replaced.
  */
  lemma WeatherReplace(table: seq<WeatherRecord>, raceTable: seq<RaceResult>, records: seq<WeatherRecord>)
    ensures var after := WeatherTableAfterInsert(table, raceTable, records, true);
      && |after| >= |records|
      && after[|after| - |records|..] == records
      && forall x :: x in after[..|after| - |records|] <==>
           x in table && (x.year == 0 || x.year !in RaceYears(raceTable)
                          || forall k :: 0 <= k < |records| ==> records[k].year != x.year)
  {
    var replaced := if records != [] then TruthyYears(records, WeatherYear) * RaceYears(raceTable) else {};
    var kept := Without(table, WeatherYear, replaced);
    WithoutMembers(table, WeatherYear, replaced);
    assert (kept + records)[..|kept|] == kept;
  }

  // ---------------------------------------------------------------- percentiles

  /** The identity key: chip times sort by their own value. */
  function Seconds(t: real): real { t }

  /** The chip times of one year's rows that have one, in table order. */
  function ChipTimes(rows: seq<RaceResult>, year: int): (r: seq<real>)
    ensures forall t :: t in r <==> exists k :: 0 <= k < |rows| && rows[k].year == year && rows[k].chipTimeSeconds == Some(t)
  {
    if rows == [] then []
    else
      var last := rows[|rows| - 1];
      var r := ChipTimes(rows[..|rows| - 1], year)
               + (if last.year == year && last.chipTimeSeconds.Some? then [last.chipTimeSeconds.value] else []);
      assert forall k :: 0 <= k < |rows| - 1 ==> rows[..|rows| - 1][k] == rows[k];
      r
  }

  /**
    `int(len(times) * p / 100)`, which truncates toward zero, clamped to the
    last index from above only.
  */
  function PercentileIndex(n: nat, p: int): (i: int)
    requires n > 0
    ensures i < n
    ensures p >= 0 ==> 0 <= i
  {
    var i := PyNum.TruncDiv(n * p, 100);
    if i >= n then n - 1 else i
  }

  /**
    `times[idx]` with Python's indexing: a negative index counts from the
    end, and one below `-len(times)` raises IndexError (None here).
  */
  function PyIndex(times: seq<real>, i: int): (r: Option<real>)
    ensures r.Some? <==> -|times| <= i < |times|
    ensures r.Some? ==> r.value in times
  {
    if 0 <= i < |times| then Some(times[i])
    else if -|times| <= i < 0 then Some(times[|times| + i])
    else None
  }

  function Pick(times: seq<real>, p: int): Option<real>
    requires times != []
  {
    PyIndex(times, PercentileIndex(|times|, p))
  }

  /** The key of percentile `p` in the result, `f'p{p}'`. */
  function Key(p: int): string
  {
    "p" + PyText.IntToString(p)
  }

  /** Different percentiles have different keys. */
  lemma KeyInjective(p: int, q: int)
    requires Key(p) == Key(q)
    ensures p == q
  {
    assert PyText.IntToString(p) == Key(p)[1..] == Key(q)[1..] == PyText.IntToString(q);
    PyText.ParseIntToString(p);
    PyText.ParseIntToString(q);
  }

  /** A non-negative percentile always picks one of the times. */
  lemma PickInRange(times: seq<real>, p: int)
    requires times != [] && p >= 0
    ensures Pick(times, p).Some? && Pick(times, p).value in times
  {
  }

  /** Percentile 0 picks the first time. */
  lemma PickZero(times: seq<real>)
    requires times != []
    ensures Pick(times, 0) == Some(times[0])
  {
  }

  /** Percentile 100, or any larger one, picks the last time. */
  lemma PickHundred(times: seq<real>, p: int)
    requires times != [] && p >= 100
    ensures Pick(times, p) == Some(times[|times| - 1])
  {
    var n := |times|;
    assert n * p >= n * 100;
    assert PyNum.TruncDiv(n * p, 100) >= n;
  }

  /** The index does not decrease as the percentile grows. */
  lemma PercentileIndexMonotone(n: nat, p: int, q: int)
    requires n > 0 && 0 <= p <= q
    ensures PercentileIndex(n, p) <= PercentileIndex(n, q)
  {
    var a, b := n * p, n * q;
    assert b - a == n * (q - p) >= 0;
    PyNum.TruncDivMonotone(a, b, 100);
  }

  /** On ascending times the picked value does not decrease as the percentile grows. */
  lemma PickMonotone(times: seq<real>, p: int, q: int)
    requires times != [] && Ordering.SortedBy(times, Seconds)
    requires 0 <= p <= q
    ensures Pick(times, p).Some? && Pick(times, q).Some? && Pick(times, p).value <= Pick(times, q).value
  {
    PercentileIndexMonotone(|times|, p, q);
    var i, j := PercentileIndex(|times|, p), PercentileIndex(|times|, q);
    if i < j {
      assert Seconds(times[i]) <= Seconds(times[j]);
    }
  }

  /**
    A negative percentile gives a truncated index at or below 0: index 0 is
    the first time, a negative one counts from the end, and one past the
    front raises.
  */
  lemma PickNegative(times: seq<real>, p: int)
    requires times != [] && p < 0
    ensures Pick(times, p).None? <==> PyNum.TruncDiv(|times| * p, 100) < -|times|
    ensures var i := PyNum.TruncDiv(|times| * p, 100);
      && (i == 0 ==> Pick(times, p) == Some(times[0]))
      && (-|times| <= i < 0 ==> Pick(times, p) == Some(times[|times| + i]))
  {
    assert |times| * p <= 0;
  }

  /** Deleting one more year: a year without rows changes nothing, so deleting it or not is the same. */
  lemma ReplaceYearStep<T>(table: seq<T>, yearOf: T -> int, done: set<int>, year: int, present: bool)
    requires present || forall k :: 0 <= k < |Without(table, yearOf, done)| ==> yearOf(Without(table, yearOf, done)[k]) != year
    ensures (if present then Without(Without(table, yearOf, done), yearOf, {year}) else Without(table, yearOf, done))
         == Without(table, yearOf, done + {year})
  {
    WithoutUnion(table, yearOf, done, {year});
    if !present {
      WithoutAbsent(Without(table, yearOf, done), yearOf, {year});
    }
  }

  /** The keys of the percentiles, in order. */
  function Keys(ps: seq<int>): (r: seq<string>)
    ensures |r| == |ps| && forall i :: 0 <= i < |ps| ==> r[i] == Key(ps[i])
  {
    if ps == [] then [] else Keys(ps[..|ps| - 1]) + [Key(ps[|ps| - 1])]
  }

  /** The result of the percentile loop over `ps`: None as soon as one pick raises. */
  function Picks(times: seq<real>, ps: seq<int>): Option<map<string, real>>
    requires times != []
  {
    if ps == [] then Some(map[]) else PickStep(Picks(times, ps[..|ps| - 1]), times, ps[|ps| - 1])
  }

  /** One more percentile: its pick is stored under its key. */
  function PickStep(acc: Option<map<string, real>>, times: seq<real>, p: int): Option<map<string, real>>
    requires times != []
  {
    match acc
    case None => None
    case Some(m) =>
      match Pick(times, p)
      case None => None
      case Some(v) => Some(m[Key(p) := v])
  }

  lemma PicksPrefix(times: seq<real>, ps: seq<int>, n: nat)
    requires times != [] && n < |ps|
    ensures Picks(times, ps[..n + 1]) == PickStep(Picks(times, ps[..n]), times, ps[n])
  {
    assert ps[..n + 1][..n] == ps[..n];
  }

  /** A percentile whose pick raises makes the whole result fail. */
  lemma {:induction false} PicksFailAt(times: seq<real>, ps: seq<int>, i: nat)
    requires times != [] && i < |ps| && Pick(times, ps[i]).None?
    ensures Picks(times, ps).None?
  {
    var init := ps[..|ps| - 1];
    if i < |init| {
      assert init[i] == ps[i];
      PicksFailAt(times, init, i);
    }
  }

  /** A failing result has a percentile whose pick raises. */
  lemma {:induction false} PicksFailWitness(times: seq<real>, ps: seq<int>) returns (i: nat)
    requires times != [] && Picks(times, ps).None?
    ensures i < |ps| && Pick(times, ps[i]).None?
  {
    var init := ps[..|ps| - 1];
    if Picks(times, init).None? {
      i := PicksFailWitness(times, init);
      assert ps[i] == init[i];
    } else {
      i := |ps| - 1;
    }
  }

  /** A result that does not fail has exactly the keys of the percentiles. */
  lemma {:induction false} PicksKeys(times: seq<real>, ps: seq<int>)
    requires times != [] && Picks(times, ps).Some?
    ensures forall key :: key in Picks(times, ps).value <==> key in Keys(ps)
  {
    if ps != [] {
      var init := ps[..|ps| - 1];
      PicksKeys(times, init);
      assert Keys(ps) == Keys(init) + [Key(ps[|ps| - 1])];
    }
  }

  /** The key of percentile `i` holds its pick; a repeated percentile stores the same pick again. */
  lemma {:induction false} PicksValueAt(times: seq<real>, ps: seq<int>, i: nat)
    requires times != [] && Picks(times, ps).Some? && i < |ps|
    ensures Key(ps[i]) in Picks(times, ps).value && Some(Picks(times, ps).value[Key(ps[i])]) == Pick(times, ps[i])
  {
    var init, p := ps[..|ps| - 1], ps[|ps| - 1];
    var m, v := Picks(times, init).value, Pick(times, p).value;
    assert Picks(times, ps).value == m[Key(p) := v];
    if i < |init| {
      var q := init[i];
      assert ps[i] == q;
      PicksValueAt(times, init, i);
      if Key(q) == Key(p) {
        KeyInjective(q, p);
      }
    }
  }

  /** Each key holds the pick of its percentile. */
  lemma PicksValues(times: seq<real>, ps: seq<int>)
    requires times != [] && Picks(times, ps).Some?
    ensures var m := Picks(times, ps).value;
      forall i :: 0 <= i < |ps| ==> Key(ps[i]) in m && Some(m[Key(ps[i])]) == Pick(times, ps[i])
  {
    forall i | 0 <= i < |ps|
      ensures Key(ps[i]) in Picks(times, ps).value && Some(Picks(times, ps).value[Key(ps[i])]) == Pick(times, ps[i])
    {
      PicksValueAt(times, ps, i);
    }
  }

  /** The counts of `get_table_counts`. */
  datatype TableCounts = TableCounts(raceResults: nat, weatherData: nat)

  // ---------------------------------------------------------------- the database

  class DiabloDatabase {
    var raceResults: seq<RaceResult>
    var weatherData: seq<WeatherRecord>

    /** A freshly created database: both tables exist and are empty. */
    constructor ()
      ensures raceResults == [] && weatherData == []
    {
      raceResults := [];
      weatherData := [];
    }

    /** `delete_year_data`: the year's rows leave both tables; every other row stays, in order. */
    method DeleteYearData(year: int)
      modifies this
      ensures raceResults == Without(old(raceResults), RaceYear, {year})
      ensures weatherData == Without(old(weatherData), WeatherYear, {year})
    {
      raceResults := Without(raceResults, RaceYear, {year});
      weatherData := Without(weatherData, WeatherYear, {year});
    }

    /** `year_exists`: whether the race table counts a row of that year. */
    function YearExists(year: int): (b: bool)
      reads this
      ensures b <==> exists k :: 0 <= k < |raceResults| && raceResults[k].year == year
    {
      YearCountPositive(raceResults, year);
      YearCount(raceResults, year) > 0
    }

    /** One year of the replace step of `insert_race_results`: its race rows go when it has any. */
    method ReplaceRaceYear(year: int, ghost table: seq<RaceResult>, ghost done: set<int>)
      modifies this
      requires raceResults == Without(table, RaceYear, done)
      ensures raceResults == Without(table, RaceYear, done + {year})
      ensures weatherData == old(weatherData)
    {
      var present := YearExists(year);
      if present {
        raceResults := Without(raceResults, RaceYear, {year});
      }
      ReplaceYearStep(table, RaceYear, done, year, present);
    }

    /**
      One year of the replace step of `insert_weather_data`: its weather
      rows go when the race table has the year, which is reported.
    */
    method ReplaceWeatherYear(year: int, ghost table: seq<WeatherRecord>, ghost done: set<int>) returns (present: bool)
      modifies this
      requires weatherData == Without(table, WeatherYear, done)
      ensures present <==> year in RaceYears(raceResults)
      ensures present ==> weatherData == Without(table, WeatherYear, done + {year})
      ensures !present ==> weatherData == old(weatherData)
      ensures raceResults == old(raceResults)
    {
      present := YearExists(year);
      if present {
        WithoutUnion(table, WeatherYear, done, {year});
        weatherData := Without(weatherData, WeatherYear, {year});
      }
    }

    /**
      The replace step of `insert_race_results`: each year found among the
      race rows has its race rows deleted.
    */
    method ReplaceRaceYears(years: set<int>)
      modifies this
      ensures raceResults == Without(old(raceResults), RaceYear, years)
      ensures weatherData == old(weatherData)
    {
      var replaced: set<int> := {};
      var remaining := years;
      WithoutAbsent(raceResults, RaceYear, replaced);
      while remaining != {}
        invariant remaining <= years && replaced == years - remaining
        invariant raceResults == Without(old(raceResults), RaceYear, replaced)
        invariant weatherData == old(weatherData)
        decreases remaining
      {
        Ordering.NonEmptyHasMember(remaining);
        var year :| year in remaining;
        ReplaceRaceYear(year, old(raceResults), replaced);
        replaced := replaced + {year};
        remaining := remaining - {year};
      }
      assert replaced == years;
    }

    /** The insert loop of `insert_race_results`: the rows are appended in order. */
    method AppendRaceResults(results: seq<RaceResult>)
      modifies this
      ensures raceResults == old(raceResults) + results
      ensures weatherData == old(weatherData)
    {
      for i := 0 to |results|
        invariant raceResults == old(raceResults) + results[..i]
        invariant weatherData == old(weatherData)
      {
        assert results[..i + 1] == results[..i] + [results[i]];
        raceResults := raceResults + [results[i]];
      }
      assert results[..|results|] == results;
    }

    /**
      `insert_race_results`: the race table becomes `RaceTableAfterInsert`
      of the old one; the weather table is not touched.
    */
    method InsertRaceResults(results: seq<RaceResult>, replaceExisting: bool := false)
      modifies this
      ensures raceResults == RaceTableAfterInsert(old(raceResults), results, replaceExisting)
      ensures weatherData == old(weatherData)
    {
      if replaceExisting && results != [] {
        ReplaceRaceYears(TruthyYears(results, RaceYear));
      } else {
        WithoutAbsent(raceResults, RaceYear, {});
      }
      AppendRaceResults(results);
    }

    /**
      The replace step of `insert_weather_data`: each year found among the
      RACE rows has its weather rows deleted.
    */
    method ReplaceWeatherYears(years: set<int>)
      modifies this
      ensures weatherData == Without(old(weatherData), WeatherYear, years * RaceYears(raceResults))
      ensures raceResults == old(raceResults)
    {
      var replaced: set<int> := {};
      var remaining := years;
      WithoutAbsent(weatherData, WeatherYear, replaced);
      while remaining != {}
        invariant remaining <= years
        invariant replaced == (years - remaining) * RaceYears(raceResults)
        invariant weatherData == Without(old(weatherData), WeatherYear, replaced)
        invariant raceResults == old(raceResults)
        decreases remaining
      {
        Ordering.NonEmptyHasMember(remaining);
        var year :| year in remaining;
        var present := ReplaceWeatherYear(year, old(weatherData), replaced);
        if present {
          replaced := replaced + {year};
        }
        remaining := remaining - {year};
      }
      assert replaced == years * RaceYears(raceResults);
    }

    /** The insert loop of `insert_weather_data`: the records are appended in order. */
    method AppendWeatherData(records: seq<WeatherRecord>)
      modifies this
      ensures weatherData == old(weatherData) + records
      ensures raceResults == old(raceResults)
    {
      for i := 0 to |records|
        invariant weatherData == old(weatherData) + records[..i]
        invariant raceResults == old(raceResults)
      {
        assert records[..i + 1] == records[..i] + [records[i]];
        weatherData := weatherData + [records[i]];
      }
      assert records[..|records|] == records;
    }

    /**
      `insert_weather_data`: the weather table becomes
      `WeatherTableAfterInsert` of the old one, which consults the race
      table; the race table is not touched.
    */
    method InsertWeatherData(records: seq<WeatherRecord>, replaceExisting: bool := false)
      modifies this
      ensures weatherData == WeatherTableAfterInsert(old(weatherData), raceResults, records, replaceExisting)
      ensures raceResults == old(raceResults)
    {
      if replaceExisting && records != [] {
        ReplaceWeatherYears(TruthyYears(records, WeatherYear));
      } else {
        WithoutAbsent(weatherData, WeatherYear, {});
      }
      AppendWeatherData(records);
    }

    /** `get_all_years`: the distinct years of the race table, ascending. */
    function GetAllYears(): (years: seq<int>)
      reads this
      ensures Ordering.StrictlyIncreasing(years)
      ensures forall y :: y in years <==> YearExists(y)
    {
      var all := seq(|raceResults|, k requires 0 <= k < |raceResults| reads this => raceResults[k].year);
      assert forall y :: y in all <==> exists k :: 0 <= k < |raceResults| && raceResults[k].year == y by {
        forall y | y in all ensures exists k :: 0 <= k < |raceResults| && raceResults[k].year == y {
          var k :| 0 <= k < |all| && all[k] == y;
        }
        forall y | exists k :: 0 <= k < |raceResults| && raceResults[k].year == y ensures y in all {
          var k :| 0 <= k < |raceResults| && raceResults[k].year == y;
          assert all[k] == y;
        }
      }
      Ordering.SortedDistinctInts(all)
    }

    /** `clear_race_results`: the race table is emptied and the weather table kept. */
    method ClearRaceResults()
      modifies this
      ensures raceResults == [] && weatherData == old(weatherData)
    {
      raceResults := [];
    }

    /** `clear_weather_data`: the weather table is emptied and the race table kept. */
    method ClearWeatherData()
      modifies this
      ensures weatherData == [] && raceResults == old(raceResults)
    {
      weatherData := [];
    }

    /** `get_table_counts`: the number of rows of each table. */
    function GetTableCounts(): (c: TableCounts)
      reads this
      ensures c.raceResults == |raceResults| && c.weatherData == |weatherData|
    {
      TableCounts(|raceResults|, |weatherData|)
    }

    /** The year's chip times in ascending order, as the percentile query returns them. */
    function YearTimes(year: int): (times: seq<real>)
      reads this
      ensures Ordering.SortedBy(times, Seconds)
      ensures multiset(times) == multiset(ChipTimes(raceResults, year))
    {
      Ordering.SortBy(ChipTimes(raceResults, year), Seconds)
    }

    /**
      `get_percentiles_by_year`: no times give `{}`; otherwise the picks
      of the percentiles, in order, or None when one of them raises.
    */
    method GetPercentilesByYear(year: int, percentiles: seq<int> := [25, 50, 75])
      returns (result: Option<map<string, real>>)
      ensures YearTimes(year) == [] ==> result == Some(map[])
      ensures YearTimes(year) != [] ==> result == Picks(YearTimes(year), percentiles)
    {
      var times := YearTimes(year);
      if times == [] {
        return Some(map[]);
      }
      var picks: map<string, real> := map[];
      for n := 0 to |percentiles|
        invariant Picks(times, percentiles[..n]) == Some(picks)
      {
        var p := percentiles[n];
        PicksPrefix(times, percentiles, n);
        var idx := PyNum.TruncDiv(|times| * p, 100);
        if idx >= |times| {
          idx := |times| - 1;
        }
        var value := PyIndex(times, idx);
        if value.None? {
          PicksFailAt(times, percentiles, n);
          return None;
        }
        picks := picks[Key(p) := value.value];
      }
      assert percentiles[..|percentiles|] == percentiles;
      result := Some(picks);
    }
  }
}
