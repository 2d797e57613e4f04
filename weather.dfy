/**
  The weather fetcher's pure core: picking the race-window hours out of an
  hourly weather response, tagging each kept hour with the race it belongs
  to, and summarising wind and temperature per location.
*/
module Weather {
  import opened Wrappers
  import opened DateTime
  import PyNum

  /** `RACE_START_HOUR` and `RACE_END_HOUR`: the window is 7 AM to 11 AM inclusive. */
  const RaceStartHour := 7
  const RaceEndHour := 11

  /**
    The `hourly` object of a weather response: the parsed timestamps and one
    array per variable, each entry a number or JSON `null`. A key that is
    absent is an empty array here, which `dict.get(key, [])` makes equivalent.
  */
  datatype Hourly = Hourly(
    time: seq<Timestamp>,
    temperature: seq<Option<real>>,
    windspeed: seq<Option<real>>,
    winddirection: seq<Option<real>>,
    windGusts: seq<Option<real>>)

  /** One hour of the race window, before it is tagged. */
  datatype WindowRecord = WindowRecord(
    timestamp: Timestamp,
    temperature: Option<real>,
    windspeed: Option<real>,
    winddirection: Option<real>,
    windGusts: Option<real>)

  /** One row of the weather table: a window hour tagged with its race. */
  datatype WeatherRecord = WeatherRecord(
    year: int,
    raceDate: Date,
    location: string,
    timestamp: Timestamp,
    temperature: Option<real>,
    windspeed: Option<real>,
    winddirection: Option<real>,
    windGusts: Option<real>)

  // ---------------------------------------------------------------- race window

  predicate InWindow(t: Timestamp)
  {
    RaceStartHour <= t.hour <= RaceEndHour
  }

  /** `xs[i] if i < len(xs) else None`: a short array reads as None past its end. */
  function ValueAt(xs: seq<Option<real>>, i: nat): Option<real>
  {
    if i < |xs| then xs[i] else None
  }

  /** The record of hour `i` of the response. */
  function RecordAt(h: Hourly, i: nat): WindowRecord
    requires i < |h.time|
  {
    WindowRecord(h.time[i], ValueAt(h.temperature, i), ValueAt(h.windspeed, i),
                 ValueAt(h.winddirection, i), ValueAt(h.windGusts, i))
  }

  /** The records of the window hours among the first `n` hours, in order. */
  function WindowUpTo(h: Hourly, n: nat): (r: seq<WindowRecord>)
    requires n <= |h.time|
    ensures |r| <= n
  {
    if n == 0 then []
    else WindowUpTo(h, n - 1) + (if InWindow(h.time[n - 1]) then [RecordAt(h, n - 1)] else [])
  }

  /** `extract_race_window_data`: no data (None or an empty dict) gives no records. */
  function RaceWindow(hourly: Option<Hourly>): (r: seq<WindowRecord>)
    ensures hourly.None? ==> r == []
    ensures hourly.Some? ==> |r| <= |hourly.value.time|
  {
    match hourly
    case None => []
    case Some(h) => WindowUpTo(h, |h.time|)
  }

  /** The positions among the first `n` timestamps that fall in the race window, ascending. */
  function WindowIndices(ts: seq<Timestamp>, n: nat): (r: seq<nat>)
    requires n <= |ts|
    ensures forall i :: i in r ==> i < n
  {
    if n == 0 then []
    else WindowIndices(ts, n - 1) + (if InWindow(ts[n - 1]) then [n - 1] else [])
  }

  /** The window positions are strictly ascending and are exactly the positions of window hours. */
  lemma {:induction false} WindowIndicesExact(ts: seq<Timestamp>, n: nat)
    requires n <= |ts|
    ensures var r := WindowIndices(ts, n);
      && (forall k, l :: 0 <= k < l < |r| ==> r[k] < r[l])
      && (forall i: nat :: i in r <==> i < n && InWindow(ts[i]))
  {
    if n > 0 {
      WindowIndicesExact(ts, n - 1);
      var r := WindowIndices(ts, n - 1);
      forall k | 0 <= k < |r| ensures r[k] < n - 1 {
        assert r[k] in r;
      }
    }
  }

  /** The window records are the records of the window positions, one for one and in order. */
  lemma {:induction false} WindowUpToIndices(h: Hourly, n: nat)
    requires n <= |h.time|
    ensures var r, idx := WindowUpTo(h, n), WindowIndices(h.time, n);
      && |r| == |idx|
      && forall k :: 0 <= k < |r| ==> idx[k] < |h.time| && r[k] == RecordAt(h, idx[k])
  {
    if n > 0 {
      WindowUpToIndices(h, n - 1);
      var idx := WindowIndices(h.time, n - 1);
      forall k | 0 <= k < |idx| ensures idx[k] < n - 1 {
        assert idx[k] in idx;
      }
    }
  }

  /**
    Exactly the hours from 7 to 11 are kept, in response order: record `k`
    is the hour at the `k`-th window position, and each variable is read at
    that position, or as None where its array is too short.
  */
  lemma RaceWindowRecords(h: Hourly)
    ensures var r, idx := RaceWindow(Some(h)), WindowIndices(h.time, |h.time|);
      && |r| == |idx|
      && (forall k, l :: 0 <= k < l < |idx| ==> idx[k] < idx[l])
      && (forall i: nat :: i in idx <==> i < |h.time| && InWindow(h.time[i]))
      && forall k :: 0 <= k < |r| ==>
           && idx[k] < |h.time|
           && r[k].timestamp == h.time[idx[k]]
           && InWindow(r[k].timestamp)
           && r[k].temperature == (if idx[k] < |h.temperature| then h.temperature[idx[k]] else None)
           && r[k].windspeed == (if idx[k] < |h.windspeed| then h.windspeed[idx[k]] else None)
           && r[k].winddirection == (if idx[k] < |h.winddirection| then h.winddirection[idx[k]] else None)
           && r[k].windGusts == (if idx[k] < |h.windGusts| then h.windGusts[idx[k]] else None)
  {
    var idx := WindowIndices(h.time, |h.time|);
    WindowIndicesExact(h.time, |h.time|);
    WindowUpToIndices(h, |h.time|);
    forall k | 0 <= k < |idx| ensures InWindow(h.time[idx[k]]) {
      assert idx[k] in idx;
    }
  }

  /** The loop of `extract_race_window_data`. */
  method ExtractRaceWindowData(hourly: Option<Hourly>) returns (records: seq<WindowRecord>)
    ensures records == RaceWindow(hourly)
  {
    records := [];
    if hourly.None? {
      return;
    }
    var h := hourly.value;
    for i := 0 to |h.time|
      invariant records == WindowUpTo(h, i)
    {
      var timestamp := h.time[i];
      if RaceStartHour <= timestamp.hour <= RaceEndHour {
        var record := WindowRecord(timestamp, ValueAt(h.temperature, i), ValueAt(h.windspeed, i),
                                   ValueAt(h.winddirection, i), ValueAt(h.windGusts, i));
        records := records + [record];
      }
    }
  }

  // ---------------------------------------------------------------- tagging

  function Tagged(r: WindowRecord, year: int, raceDate: Date, location: string): WeatherRecord
  {
    WeatherRecord(year, raceDate, location, r.timestamp, r.temperature, r.windspeed, r.winddirection, r.windGusts)
  }

  /** The locations a weather request can be made for. */
  predicate KnownLocation(location: string)
  {
    location == "start" || location == "summit"
  }

  /**
    The tagging loop of `fetch_weather_for_race`: one record per window
    hour, in order, each carrying the year, race date and location and
    keeping the hour's readings.
  */
  method TagRecords(window: seq<WindowRecord>, year: int, raceDate: Date, location: string)
    returns (records: seq<WeatherRecord>)
    ensures |records| == |window|
    ensures forall k :: 0 <= k < |window| ==>
      && records[k].year == year && records[k].raceDate == raceDate && records[k].location == location
      && records[k].timestamp == window[k].timestamp
      && records[k].temperature == window[k].temperature
      && records[k].windspeed == window[k].windspeed
      && records[k].winddirection == window[k].winddirection
      && records[k].windGusts == window[k].windGusts
  {
    records := [];
    for k := 0 to |window|
      invariant |records| == k
      invariant forall j :: 0 <= j < k ==> records[j] == Tagged(window[j], year, raceDate, location)
    {
      records := records + [Tagged(window[k], year, raceDate, location)];
    }
  }

  /**
    `fetch_weather_for_race`, with the date string already parsed (None when
    it does not parse) and the hourly response given: a bad date, an unknown
    location or a response without hourly data gives no records; otherwise
    the race-window hours, tagged.
  */
  method FetchWeatherForRace(year: int, raceDate: Option<Date>, location: string, response: Option<Hourly>)
    returns (records: seq<WeatherRecord>)
    ensures raceDate.None? || !KnownLocation(location) || response.None? ==> records == []
    ensures raceDate.Some? && KnownLocation(location) && response.Some? ==>
      var window := RaceWindow(response);
      && |records| == |window|
      && forall k :: 0 <= k < |window| ==> records[k] == Tagged(window[k], year, raceDate.value, location)
  {
    if raceDate.None? {
      return [];
    }
    var hourly := if KnownLocation(location) then response else None;
    if hourly.None? {
      return [];
    }
    var window := ExtractRaceWindowData(hourly);
    records := TagRecords(window, year, raceDate.value, location);
  }

  // ---------------------------------------------------------------- summary

  /** The statistics of one location; each is None when no reading is present. */
  datatype LocationSummary = LocationSummary(
    avgWindspeed: Option<real>,
    maxWindspeed: Option<real>,
    minWindspeed: Option<real>,
    avgWindGust: Option<real>,
    maxWindGust: Option<real>,
    avgTemp: Option<real>,
    maxTemp: Option<real>,
    minTemp: Option<real>)

  /** The records of one location, in order. */
  function AtLocation(records: seq<WeatherRecord>, location: string): seq<WeatherRecord>
  {
    if records == [] then []
    else
      var last := records[|records| - 1];
      AtLocation(records[..|records| - 1], location) + (if last.location == location then [last] else [])
  }

  /** A location's records are exactly the records that name it. */
  lemma {:induction false} AtLocationMembers(records: seq<WeatherRecord>, location: string)
    ensures forall x :: x in AtLocation(records, location) <==> x in records && x.location == location
  {
    if records != [] {
      AtLocationMembers(records[..|records| - 1], location);
      assert records == records[..|records| - 1] + [records[|records| - 1]];
    }
  }

  /** The readings of a list that are not None, in order. */
  function Present(xs: seq<Option<real>>): (r: seq<real>)
    ensures forall v :: v in r <==> Some(v) in xs
  {
    if xs == [] then []
    else
      var last := xs[|xs| - 1];
      var r := Present(xs[..|xs| - 1]) + (if last.Some? then [last.value] else []);
      assert xs == xs[..|xs| - 1] + [last];
      r
  }

  function Windspeed(r: WeatherRecord): Option<real> { r.windspeed }
  function WindGust(r: WeatherRecord): Option<real> { r.windGusts }
  function Temperature(r: WeatherRecord): Option<real> { r.temperature }

  /** One reading of every record, in order (`r.get('windspeed_10m')` and the like). */
  function Column(records: seq<WeatherRecord>, reading: WeatherRecord -> Option<real>): (r: seq<Option<real>>)
    ensures |r| == |records| && forall k :: 0 <= k < |records| ==> r[k] == reading(records[k])
  {
    if records == [] then [] else Column(records[..|records| - 1], reading) + [reading(records[|records| - 1])]
  }

  /** `sum(xs) / len(xs) if xs else None` */
  function Average(xs: seq<real>): (r: Option<real>)
    ensures r.None? <==> xs == []
    ensures r.Some? ==> PyNum.MinOf(xs) <= r.value <= PyNum.MaxOf(xs)
  {
    if xs == [] then None else PyNum.MeanBetween(xs); Some(PyNum.Mean(xs))
  }

  /** `max(xs) if xs else None` */
  function Largest(xs: seq<real>): (r: Option<real>)
    ensures r.None? <==> xs == []
    ensures r.Some? ==> r.value in xs && forall v :: v in xs ==> v <= r.value
  {
    if xs == [] then None else Some(PyNum.MaxOf(xs))
  }

  /** `min(xs) if xs else None` */
  function Smallest(xs: seq<real>): (r: Option<real>)
    ensures r.None? <==> xs == []
    ensures r.Some? ==> r.value in xs && forall v :: v in xs ==> r.value <= v
  {
    if xs == [] then None else Some(PyNum.MinOf(xs))
  }

  function SummaryOf(records: seq<WeatherRecord>): LocationSummary
  {
    var speeds := Present(Column(records, Windspeed));
    var gusts := Present(Column(records, WindGust));
    var temps := Present(Column(records, Temperature));
    LocationSummary(
      Average(speeds), Largest(speeds), Smallest(speeds),
      Average(gusts), Largest(gusts),
      Average(temps), Largest(temps), Smallest(temps))
  }

  /** A list has no present reading exactly when every entry is None. */
  lemma PresentEmpty(xs: seq<Option<real>>)
    ensures Present(xs) == [] <==> forall k :: 0 <= k < |xs| ==> xs[k].None?
  {
    if Present(xs) != [] {
      assert Some(Present(xs)[0]) in xs;
    }
    if exists k :: 0 <= k < |xs| && xs[k].Some? {
      var k :| 0 <= k < |xs| && xs[k].Some?;
      assert xs[k].value in Present(xs);
    }
  }

  /**
    The statistics of one reading: None exactly when no record has it;
    otherwise min <= avg <= max, both extremes are readings of some record,
    and every reading lies between them.
  */
  lemma ColumnStatistics(records: seq<WeatherRecord>, reading: WeatherRecord -> Option<real>)
    ensures var xs := Present(Column(records, reading));
      && (Average(xs).None? <==> forall k :: 0 <= k < |records| ==> reading(records[k]).None?)
      && (xs != [] ==> InOrder(Smallest(xs), Average(xs)) && InOrder(Average(xs), Largest(xs)))
      && (xs != [] ==> exists k :: 0 <= k < |records| && reading(records[k]) == Largest(xs))
      && (xs != [] ==> exists k :: 0 <= k < |records| && reading(records[k]) == Smallest(xs))
      && (forall k :: 0 <= k < |records| && reading(records[k]).Some? ==>
            xs != [] && Smallest(xs).value <= reading(records[k]).value <= Largest(xs).value)
  {
    var col := Column(records, reading);
    var xs := Present(col);
    PresentEmpty(col);
    if xs != [] {
      PyNum.MeanBetween(xs);
      assert Largest(xs) in col && Smallest(xs) in col;
    }
    forall k | 0 <= k < |records| && reading(records[k]).Some?
      ensures xs != [] && Smallest(xs).value <= reading(records[k]).value <= Largest(xs).value
    {
      assert col[k] == Some(reading(records[k]).value);
      assert reading(records[k]).value in xs;
    }
  }

  /** Both statistics are present and the first is not above the second. */
  predicate InOrder(lo: Option<real>, hi: Option<real>)
  {
    lo.Some? && hi.Some? && lo.value <= hi.value
  }

  /**
    The summary of one location: each statistic is None exactly when no
    record has that reading, and otherwise the minimum, average and maximum
    are in order.
  */
  lemma SummaryOfBounds(records: seq<WeatherRecord>)
    ensures var s := SummaryOf(records);
      && (s.avgWindspeed.None? <==> forall k :: 0 <= k < |records| ==> Windspeed(records[k]).None?)
      && (s.avgWindGust.None? <==> forall k :: 0 <= k < |records| ==> WindGust(records[k]).None?)
      && (s.avgTemp.None? <==> forall k :: 0 <= k < |records| ==> Temperature(records[k]).None?)
      && (s.avgWindspeed.Some? ==> InOrder(s.minWindspeed, s.avgWindspeed) && InOrder(s.avgWindspeed, s.maxWindspeed))
      && (s.avgWindGust.Some? ==> InOrder(s.avgWindGust, s.maxWindGust))
      && (s.avgTemp.Some? ==> InOrder(s.minTemp, s.avgTemp) && InOrder(s.avgTemp, s.maxTemp))
  {
    ColumnStatistics(records, Windspeed);
    ColumnStatistics(records, WindGust);
    ColumnStatistics(records, Temperature);
  }

  /** The locations the summary reports on, in the order it visits them. */
  const SummaryLocations: seq<string> := ["start", "summit"]

  /** A location has records exactly when some record names it. */
  lemma AtLocationEmpty(records: seq<WeatherRecord>, location: string)
    ensures AtLocation(records, location) != [] <==>
      exists k :: 0 <= k < |records| && records[k].location == location
  {
    AtLocationMembers(records, location);
    if AtLocation(records, location) != [] {
      assert AtLocation(records, location)[0] in records;
    }
    if exists k :: 0 <= k < |records| && records[k].location == location {
      var k :| 0 <= k < |records| && records[k].location == location;
      assert records[k] in AtLocation(records, location);
    }
  }

  /**
    The summary after visiting one more location: its entry, computed by
    `summarise` from the location's records, is added when it has records.
  */
  function AddEntry(summary: map<string, LocationSummary>, records: seq<WeatherRecord>, loc: string,
                    summarise: seq<WeatherRecord> -> LocationSummary): map<string, LocationSummary>
  {
    var kept := AtLocation(records, loc);
    if kept != [] then summary[loc := summarise(kept)] else summary
  }

  /** The summary after visiting the locations `locs` in order. */
  function Reported(records: seq<WeatherRecord>, locs: seq<string>, summarise: seq<WeatherRecord> -> LocationSummary)
    : map<string, LocationSummary>
  {
    if locs == [] then map[]
    else AddEntry(Reported(records, locs[..|locs| - 1], summarise), records, locs[|locs| - 1], summarise)
  }

  /** One more location of `locs`: one more step. */
  lemma ReportedStep(records: seq<WeatherRecord>, locs: seq<string>, n: nat, summarise: seq<WeatherRecord> -> LocationSummary)
    requires n < |locs|
    ensures Reported(records, locs[..n + 1], summarise)
         == AddEntry(Reported(records, locs[..n], summarise), records, locs[n], summarise)
  {
    assert locs[..n + 1][..n] == locs[..n];
  }

  /** Visiting "start" and "summit" reports exactly the known locations that have records. */
  lemma ReportedKnown(records: seq<WeatherRecord>, summarise: seq<WeatherRecord> -> LocationSummary)
    ensures var m := Reported(records, SummaryLocations, summarise);
      && (forall loc :: loc in m <==> KnownLocation(loc) && AtLocation(records, loc) != [])
      && (forall loc :: loc in m ==> m[loc] == summarise(AtLocation(records, loc)))
  {
    var start := AddEntry(map[], records, "start", summarise);
    assert SummaryLocations[..1] == ["start"];
    assert Reported(records, ["start"], summarise) == start by {
      assert ["start"][..0] == [];
    }
    assert Reported(records, SummaryLocations, summarise) == AddEntry(start, records, "summit", summarise);
    assert "start" != "summit" by {
      assert |"start"| != |"summit"|;
    }
  }

  /**
    `get_weather_summary`: an entry for "start" and one for "summit", each
    only when that location has records; records of any other location are
    ignored, so no records give `{}`.
  */
  method GetWeatherSummary(records: seq<WeatherRecord>) returns (summary: map<string, LocationSummary>)
    ensures forall loc :: loc in summary <==> KnownLocation(loc) && AtLocation(records, loc) != []
    ensures forall loc :: loc in summary ==> summary[loc] == SummaryOf(AtLocation(records, loc))
  {
    summary := map[];
    if records == [] {
      return;
    }
    for n := 0 to |SummaryLocations|
      invariant summary == Reported(records, SummaryLocations[..n], SummaryOf)
    {
      var location := SummaryLocations[n];
      var kept := AtLocation(records, location);
      ReportedStep(records, SummaryLocations, n, SummaryOf);
      if kept != [] {
        summary := summary[location := SummaryOf(kept)];
      }
    }
    assert SummaryLocations[..|SummaryLocations|] == SummaryLocations;
    ReportedKnown(records, SummaryOf);
  }
}
