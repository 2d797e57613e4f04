/**
  The results scraper's pure core: reading a chip time such as `1:02:03.4`
  into seconds, and mapping the cell texts of a results-table row into a
  race-result record.
*/
module Scraper {
  import opened Wrappers
  import opened PyText
  import opened DateTime

  /** One finisher's row as the scraper produces it and the database stores it. */
  datatype RaceResult = RaceResult(
    year: int,
    raceDate: Option<Date>,
    place: Option<int>,
    name: string,
    team: string,
    cityState: string,
    gender: string,
    genderPlace: string,
    age: Option<int>,
    agePlace: string,
    chipTimeStr: string,
    chipTimeSeconds: Option<real>,
    pace: string,
    startTime: string)

  // ---------------------------------------------------------------- chip time

  /**
    `parse_chip_time`: blank text gives None; otherwise the stripped text is
    split on ':' and read as `H:M:S` or `M:S`, hours and minutes with `int()`
    and seconds with `float()`. Any other number of fields, or a field that
    does not parse, gives None.
  */
  function ParseChipTime(s: string): (r: Option<real>)
    ensures r.Some? ==> Strip(s) != [] && ':' in Strip(s)
  {
    var t := Strip(s);
    if t == [] then None else FieldsSeconds(Split(t, ':'))
  }

  /** The branch on the number of ':'-separated fields. */
  function FieldsSeconds(parts: seq<string>): (r: Option<real>)
    ensures r.Some? ==> |parts| == 2 || |parts| == 3
  {
    if |parts| == 3 then HmsSeconds(ParseInt(parts[0]), ParseInt(parts[1]), ParseFloat(parts[2]))
    else if |parts| == 2 then MsSeconds(ParseInt(parts[0]), ParseFloat(parts[1]))
    else None
  }

  /** Hours, minutes and seconds combined; a field that failed to parse fails the whole. */
  function HmsSeconds(h: Option<int>, m: Option<int>, sec: Option<real>): (r: Option<real>)
    ensures r.Some? <==> h.Some? && m.Some? && sec.Some?
  {
    if h.Some? && m.Some? && sec.Some? then Some(ClockSeconds(h.value, m.value, sec.value))
    else None
  }

  /** `hours * 3600 + minutes * 60 + seconds`. */
  function ClockSeconds(h: int, m: int, sec: real): real
  {
    (h * 3600 + m * 60) as real + sec
  }

  /** Minutes and seconds combined; a field that failed to parse fails the whole. */
  function MsSeconds(m: Option<int>, sec: Option<real>): (r: Option<real>)
    ensures r.Some? <==> m.Some? && sec.Some?
  {
    if m.Some? && sec.Some? then Some(MinuteSeconds(m.value, sec.value)) else None
  }

  /** `minutes * 60 + seconds`. */
  function MinuteSeconds(m: int, sec: real): real
  {
    (m * 60) as real + sec
  }

  /** Empty or whitespace-only text has no chip time. */
  lemma ParseChipTimeBlank(s: string)
    requires AllSpace(s)
    ensures ParseChipTime(s) == None
  {
    StripEmpty(s);
  }

  /** Surrounding whitespace is ignored: the text is stripped before it is split. */
  lemma ParseChipTimeStripped(s: string)
    ensures ParseChipTime(Strip(s)) == ParseChipTime(s)
  {
    StripIdempotent(s);
  }

  /** Text without a ':' is neither `H:M:S` nor `M:S`. */
  lemma ParseChipTimeNoColon(s: string)
    requires ':' !in s
    ensures ParseChipTime(s) == None
  {
    StripSubset(s);
  }

  /** Four or more ':'-separated fields fall through every branch. */
  lemma ParseChipTimeTooManyFields(s: string)
    requires |Split(Strip(s), ':')| >= 4
    ensures ParseChipTime(s) == None
  {
  }

  /**
    `H:M:S` reads as `H*3600 + M*60 + S`, and as None as soon as one of the
    three fields does not parse.
  */
  lemma ParseChipTimeThreeFields(s: string, hh: string, mm: string, ss: string)
    requires Strip(s) == hh + ":" + mm + ":" + ss
    requires ':' !in hh && ':' !in mm && ':' !in ss
    ensures ParseChipTime(s) == HmsSeconds(ParseInt(hh), ParseInt(mm), ParseFloat(ss))
  {
    SplitThree(hh, mm, ss, ':');
  }

  /** `M:S` reads as `M*60 + S`, and as None as soon as a field does not parse. */
  lemma ParseChipTimeTwoFields(s: string, mm: string, ss: string)
    requires Strip(s) == mm + ":" + ss
    requires ':' !in mm && ':' !in ss
    ensures ParseChipTime(s) == MsSeconds(ParseInt(mm), ParseFloat(ss))
  {
    SplitTwo(mm, ss, ':');
  }

  // ---------------------------------------------------------------- table rows

  /** `int(t) if t.isdigit() else None`. */
  function DigitField(t: string): (r: Option<int>)
    ensures r.Some? <==> IsDigits(t)
    ensures r.Some? ==> r.value >= 0 && ParseInt(t) == r
  {
    if IsDigits(t) then
      ParseIntDigits(t);
      Some(DigitsValue(t) as int)
    else None
  }

  /** The record built from the stripped texts of a row with at least 13 cells. */
  function ParseRow(cells: seq<string>, year: int): (r: RaceResult)
    requires |cells| >= 13
    ensures r.year == year && r.raceDate == None
  {
    var chip := Strip(cells[9]);
    RaceResult(
      year := year,
      raceDate := None,
      place := DigitField(Strip(cells[0])),
      name := Strip(cells[1]),
      team := Strip(cells[2]),
      cityState := Strip(cells[3]),
      gender := Strip(cells[4]),
      genderPlace := Strip(cells[5]),
      age := DigitField(Strip(cells[6])),
      agePlace := Strip(cells[7]),
      chipTimeStr := chip,
      chipTimeSeconds := ParseChipTime(chip),
      pace := Strip(cells[10]),
      startTime := Strip(cells[12]))
  }

  /**
    A row's record carries `place` and `age` only when their cells hold
    digits, each read as `int()` would, and the chip time parsed from cell 9.
  */
  lemma ParseRowFields(cells: seq<string>, year: int)
    requires |cells| >= 13
    ensures var r := ParseRow(cells, year);
      && (r.place.Some? <==> IsDigits(Strip(cells[0])))
      && (r.place.Some? ==> ParseInt(Strip(cells[0])) == r.place)
      && (r.age.Some? <==> IsDigits(Strip(cells[6])))
      && (r.age.Some? ==> ParseInt(Strip(cells[6])) == r.age)
      && r.chipTimeStr == Strip(cells[9])
      && r.chipTimeSeconds == ParseChipTime(cells[9])
  {
    ParseChipTimeStripped(cells[9]);
  }

  /** The rows `parse_results_table` keeps: those of at least 13 cells, in order. */
  function KeptRows(rows: seq<seq<string>>): (kept: seq<seq<string>>)
    ensures |kept| <= |rows|
    ensures forall k :: 0 <= k < |kept| ==> |kept[k]| >= 13
    ensures forall row :: row in kept ==> row in rows
  {
    if rows == [] then []
    else
      var last := rows[|rows| - 1];
      var kept := KeptRows(rows[..|rows| - 1]) + (if |last| >= 13 then [last] else []);
      assert forall row :: row in rows[..|rows| - 1] ==> row in rows;
      kept
  }

  /** Rows are kept or skipped independently of one another and keep their relative order. */
  lemma {:induction false} KeptRowsAppend(a: seq<seq<string>>, b: seq<seq<string>>)
    ensures KeptRows(a + b) == KeptRows(a) + KeptRows(b)
    decreases |b|
  {
    if b == [] {
      assert a + b == a;
    } else {
      var b' := b[..|b| - 1];
      assert (a + b)[..|a + b| - 1] == a + b';
      KeptRowsAppend(a, b');
    }
  }

  /** A row with fewer than 13 cells is skipped; any other row is kept. */
  lemma KeptRowsSingle(row: seq<string>)
    ensures KeptRows([row]) == if |row| >= 13 then [row] else []
  {
    assert [row][..0] == [];
  }

  /** The records of the body rows: one per kept row, in the same order. */
  function ParsedRows(rows: seq<seq<string>>, year: int): (r: seq<RaceResult>)
    ensures |r| <= |rows|
  {
    if rows == [] then []
    else
      var last := rows[|rows| - 1];
      ParsedRows(rows[..|rows| - 1], year) + (if |last| >= 13 then [ParseRow(last, year)] else [])
  }

  /**
    The records are exactly the kept rows, each mapped through `ParseRow`:
    one record per row of at least 13 cells, in table order.
  */
  lemma {:induction false} ParsedRowsKept(rows: seq<seq<string>>, year: int)
    ensures |ParsedRows(rows, year)| == |KeptRows(rows)|
    ensures forall k :: 0 <= k < |KeptRows(rows)| ==>
      ParsedRows(rows, year)[k] == ParseRow(KeptRows(rows)[k], year)
  {
    if rows != [] {
      var init, last := rows[..|rows| - 1], rows[|rows| - 1];
      ParsedRowsKept(init, year);
      if |last| >= 13 {
        assert ParsedRows(rows, year) == ParsedRows(init, year) + [ParseRow(last, year)];
        assert KeptRows(rows) == KeptRows(init) + [last];
      } else {
        assert ParsedRows(rows, year) == ParsedRows(init, year);
        assert KeptRows(rows) == KeptRows(init);
      }
    }
  }

  /** Every record carries the year the table was scraped for. */
  lemma ParsedRowsYear(rows: seq<seq<string>>, year: int)
    ensures forall k :: 0 <= k < |ParsedRows(rows, year)| ==> ParsedRows(rows, year)[k].year == year
  {
    ParsedRowsKept(rows, year);
  }

  /** Parsing one more row appends its record when it has at least 13 cells. */
  lemma ParsedRowsSnoc(rows: seq<seq<string>>, row: seq<string>, year: int)
    ensures ParsedRows(rows + [row], year)
         == ParsedRows(rows, year) + (if |row| >= 13 then [ParseRow(row, year)] else [])
  {
    assert (rows + [row])[..|rows|] == rows;
  }

  /**
    `parse_results_table`: no table gives no results; otherwise the header
    row is dropped and every body row of at least 13 cells yields one record.
  */
  method ParseResultsTable(table: Option<seq<seq<string>>>, year: int) returns (results: seq<RaceResult>)
    ensures table.None? ==> results == []
    ensures table.Some? && |table.value| > 0 ==> results == ParsedRows(table.value[1..], year)
    ensures table.Some? && |table.value| == 0 ==> results == []
  {
    results := [];
    if table.None? {
      return;
    }
    var rows := table.value;
    if |rows| == 0 {
      return;
    }
    var i := 1;
    while i < |rows|
      invariant 1 <= i <= |rows|
      invariant results == ParsedRows(rows[1..i], year)
    {
      var cells := rows[i];
      assert rows[1..i + 1] == rows[1..i] + [cells];
      ParsedRowsSnoc(rows[1..i], cells, year);
      if |cells| >= 13 {
        var rec := ParseRow(cells, year);
        results := results + [rec];
      }
      i := i + 1;
    }
    assert rows[1..i] == rows[1..];
  }
}
