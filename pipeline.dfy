/**
  The pipeline's own bookkeeping: the race date of each year, gathered
  from the scraped results or from the rows already stored, and the
  storing step with its `force` and `replace_existing` flags.
*/
module Pipeline {
  import opened Wrappers
  import opened DateTime
  import opened Scraper
  import opened Weather
  import opened Database

  // ---------------------------------------------------------------- race dates from the results

  /** A result whose race date is set is the one that can name its year's date. */
  predicate Dated(r: RaceResult)
  {
    r.raceDate.Some?
  }

  /**
    The dates the full pipeline collects, result by result: a dated result
    records its date unless its year already has one.
  */
  function FirstDates(results: seq<RaceResult>): map<int, Date>
  {
    if results == [] then map[]
    else
      var m := FirstDates(results[..|results| - 1]);
      var r := results[|results| - 1];
      if Dated(r) && r.year !in m then m[r.year := r.raceDate.value] else m
  }

  /** A year has a date exactly when some result of that year is dated. */
  lemma {:induction false} FirstDatesKeys(results: seq<RaceResult>, year: int)
    ensures year in FirstDates(results) <==>
      exists k :: 0 <= k < |results| && results[k].year == year && Dated(results[k])
  {
    if results != [] {
      var init := results[..|results| - 1];
      FirstDatesKeys(init, year);
      if exists k :: 0 <= k < |init| && init[k].year == year && Dated(init[k]) {
        var k :| 0 <= k < |init| && init[k].year == year && Dated(init[k]);
        assert results[k] == init[k];
      }
      if exists k :: 0 <= k < |results| && results[k].year == year && Dated(results[k]) {
        var k :| 0 <= k < |results| && results[k].year == year && Dated(results[k]);
        if k < |init| {
          assert init[k] == results[k];
        }
      }
    }
  }

  /** The date kept for a year is the one of its first dated result. */
  lemma {:induction false} FirstDatesFirst(results: seq<RaceResult>, k: nat)
    requires k < |results| && Dated(results[k])
    requires forall j :: 0 <= j < k ==> results[j].year != results[k].year || !Dated(results[j])
    ensures var m := FirstDates(results);
      results[k].year in m && m[results[k].year] == results[k].raceDate.value
  {
    var init := results[..|results| - 1];
    var year := results[k].year;
    if k < |init| {
      assert init[k] == results[k];
      forall j | 0 <= j < k ensures init[j].year != year || !Dated(init[j]) {
        assert init[j] == results[j];
      }
      FirstDatesFirst(init, k);
    } else {
      FirstDatesKeys(init, year);
      forall j | 0 <= j < |init| ensures init[j].year != year || !Dated(init[j]) {
        assert init[j] == results[j];
      }
    }
  }

  /** Later results never overwrite a date already collected. */
  lemma {:induction false} FirstDatesKept(results: seq<RaceResult>, more: seq<RaceResult>, year: int)
    requires year in FirstDates(results)
    ensures year in FirstDates(results + more)
    ensures FirstDates(results + more)[year] == FirstDates(results)[year]
    decreases |more|
  {
    if more == [] {
      assert results + more == results;
    } else {
      var init := more[..|more| - 1];
      assert (results + more)[..|results + more| - 1] == results + init;
      FirstDatesKept(results, init, year);
    }
  }

  /** `race_dates_by_year` as the full pipeline builds it from the scraped results. */
  method RaceDatesByYear(results: seq<RaceResult>) returns (dates: map<int, Date>)
    ensures dates == FirstDates(results)
  {
    dates := map[];
    for i := 0 to |results|
      invariant dates == FirstDates(results[..i])
    {
      var result := results[i];
      assert results[..i + 1][..i] == results[..i];
      if result.raceDate.Some? && result.year !in dates {
        dates := dates[result.year := result.raceDate.value];
      }
    }
    assert results[..|results|] == results;
  }

  // ---------------------------------------------------------------- race dates from the database

  /**
    One row of `SELECT DISTINCT year, race_date FROM race_results ORDER BY
    year`, its date already parsed; None stands for an empty or NULL date.
  */
  datatype DateRow = DateRow(year: int, raceDate: Option<Date>)

  /** The dates the weather-only path collects: every dated row overwrites its year's entry. */
  function LastDates(rows: seq<DateRow>): map<int, Date>
  {
    if rows == [] then map[]
    else
      var m := LastDates(rows[..|rows| - 1]);
      var row := rows[|rows| - 1];
      if row.raceDate.Some? then m[row.year := row.raceDate.value] else m
  }

  /** A row without a date is skipped: the collected dates stay as they were. */
  lemma LastDatesSkipsUndated(rows: seq<DateRow>, year: int)
    ensures LastDates(rows + [DateRow(year, None)]) == LastDates(rows)
  {
    assert (rows + [DateRow(year, None)])[..|rows|] == rows;
  }

  /** A year has a date exactly when one of its rows is dated. */
  lemma {:induction false} LastDatesKeys(rows: seq<DateRow>, year: int)
    ensures year in LastDates(rows) <==>
      exists k :: 0 <= k < |rows| && rows[k].year == year && rows[k].raceDate.Some?
  {
    if rows != [] {
      var init := rows[..|rows| - 1];
      LastDatesKeys(init, year);
      if exists k :: 0 <= k < |init| && init[k].year == year && init[k].raceDate.Some? {
        var k :| 0 <= k < |init| && init[k].year == year && init[k].raceDate.Some?;
        assert rows[k] == init[k];
      }
      if exists k :: 0 <= k < |rows| && rows[k].year == year && rows[k].raceDate.Some? {
        var k :| 0 <= k < |rows| && rows[k].year == year && rows[k].raceDate.Some?;
        if k < |init| {
          assert init[k] == rows[k];
        }
      }
    }
  }

  /** The date kept for a year is the one of its last dated row. */
  lemma {:induction false} LastDatesLast(rows: seq<DateRow>, k: nat)
    requires k < |rows| && rows[k].raceDate.Some?
    requires forall j :: k < j < |rows| ==> rows[j].year != rows[k].year || rows[j].raceDate.None?
    ensures var m := LastDates(rows);
      rows[k].year in m && m[rows[k].year] == rows[k].raceDate.value
  {
    var init := rows[..|rows| - 1];
    if k < |init| {
      assert init[k] == rows[k];
      forall j | k < j < |init| ensures init[j].year != rows[k].year || init[j].raceDate.None? {
        assert init[j] == rows[j];
      }
      LastDatesLast(init, k);
    }
  }

  /** `race_dates_by_year` as the weather-only path builds it from the stored rows. */
  method StoredRaceDates(rows: seq<DateRow>) returns (dates: map<int, Date>)
    ensures dates == LastDates(rows)
  {
    dates := map[];
    for i := 0 to |rows|
      invariant dates == LastDates(rows[..i])
    {
      var row := rows[i];
      assert rows[..i + 1][..i] == rows[..i];
      if row.raceDate.Some? {
        dates := dates[row.year := row.raceDate.value];
      }
    }
    assert rows[..|rows|] == rows;
  }

  // ---------------------------------------------------------------- storing

  /**
    The race table after `store_data`: `force` empties it and turns
    `replace_existing` off, then the results are inserted.
  */
  function StoredRaceTable(table: seq<RaceResult>, results: seq<RaceResult>, force: bool, replaceExisting: bool): seq<RaceResult>
  {
    RaceTableAfterInsert(if force then [] else table, results, !force && replaceExisting)
  }

  /**
    The weather table after `store_data`, where `raceTable` is the race
    table as the race insert left it.
  */
  function StoredWeatherTable(table: seq<WeatherRecord>, raceTable: seq<RaceResult>, records: seq<WeatherRecord>,
                              force: bool, replaceExisting: bool): seq<WeatherRecord>
  {
    WeatherTableAfterInsert(if force then [] else table, raceTable, records, !force && replaceExisting)
  }

  /** An empty list leaves its table as it was: skipping the insert is the same as doing it. */
  lemma StoredEmpty(race: seq<RaceResult>, weather: seq<WeatherRecord>, replaceExisting: bool)
    ensures StoredRaceTable(race, [], false, replaceExisting) == race
    ensures StoredWeatherTable(weather, race, [], false, replaceExisting) == weather
  {
    WithoutAbsent(race, RaceYear, {});
    WithoutAbsent(weather, WeatherYear, {});
  }

  /** With `force` the tables hold exactly the new batches, in order. */
  lemma StoredForce(race: seq<RaceResult>, weather: seq<WeatherRecord>, raceTable: seq<RaceResult>,
                    results: seq<RaceResult>, records: seq<WeatherRecord>, replaceExisting: bool)
    ensures StoredRaceTable(race, results, true, replaceExisting) == results
    ensures StoredWeatherTable(weather, raceTable, records, true, replaceExisting) == records
  {
    WithoutAbsent([], RaceYear, {});
    WithoutAbsent([], WeatherYear, {});
  }

  /**
    `store_data`: optionally clear both tables, then insert the non-empty
    batches, the race results first, so that the weather replace sees the
    new race years.
  */
  method StoreData(db: DiabloDatabase, raceResults: seq<RaceResult>, weatherRecords: seq<WeatherRecord>,
                   force: bool, replaceExisting: bool := true)
    modifies db
    ensures db.raceResults == StoredRaceTable(old(db.raceResults), raceResults, force, replaceExisting)
    ensures db.weatherData == StoredWeatherTable(old(db.weatherData), db.raceResults, weatherRecords, force, replaceExisting)
  {
    var replace := replaceExisting;
    if force {
      db.ClearRaceResults();
      db.ClearWeatherData();
      replace := false;
    }
    if raceResults != [] {
      db.InsertRaceResults(raceResults, replaceExisting := replace);
    } else {
      WithoutAbsent(db.raceResults, RaceYear, {});
    }
    if weatherRecords != [] {
      db.InsertWeatherData(weatherRecords, replaceExisting := replace);
    } else {
      WithoutAbsent(db.weatherData, WeatherYear, {});
    }
  }
}
