# Mount Diablo Challenge results pipeline: a Dafny model of its core

The pipeline scrapes the results of the Mount Diablo Challenge hill climb
from the race's results site, year by year. It fetches hourly weather for
the start and the summit during the race window (7 AM to 11 AM, from
`RACE_START_HOUR` and `RACE_END_HOUR`). It stores both in two SQLite tables
and derives per-year statistics and dashboard data from them.

This project models the exactly specifiable routines of that pipeline.

- **Scraper** (`src/scraper.py`):
  - `parse_chip_time` reads `H:M:S` or `M:S` text into seconds, or gives None.
  - `parse_results_table` maps each body row of at least 13 cells to a race-result record.
- **Analysis** (`src/analysis.py`): `seconds_to_time_str` writes `HH:MM:SS.ss`. It is proved to round-trip through `parse_chip_time` up to hundredths. `time_str_to_minutes` divides by 60.
- **Dashboard** (`dashboard_data.py`):
  - `seconds_to_minutes`, and `seconds_to_mmss`, which round-trips through the `M:S` branch of `parse_chip_time`.
  - The None-pair filter in front of the correlation.
  - The overall block: sorted years, year range, mean of the medians, first-argmin years and total finishers.
  - The per-year entries.
  - `extract_rider_performances`, which groups riders by name, keeps those with two or more rows, sorts by year and then by name.
- **Weather** (`src/weather.py`):
  - `extract_race_window_data`: the hours 7 to 11 in order, with None past the end of a short variable array.
  - The tagging in `fetch_weather_for_race`.
  - `get_weather_summary`: average, maximum and minimum per known location, skipping None readings.
- **Database** (`src/database.py`):
  - `DiabloDatabase` as a class with the two tables as sequence fields.
  - Insert with replace-by-year. Weather replacement consults the race table, because `year_exists` counts race rows.
  - Delete, clear, `year_exists`, `get_all_years`, `get_table_counts`.
  - `get_percentiles_by_year`, which picks by a truncated and clamped index.
- **Pipeline** (`main.py`):
  - `race_dates_by_year`: the first dated result wins in the full pipeline, and the last dated row wins in the weather-only path.
  - `store_data`, with its `force` and `replace_existing` flags.

How Python values are represented:
- Python's `None` is `Option.None`. So is pandas' NaN where the source tests for it with `pd.isna`/`notna` (src/analysis.py:63, 140, 152). Where the source tests only `is None`, NaN is discussed under "## Left out".
- Seconds and readings are exact `real`s.
- `int()`, `float()`, `str.strip`, `str.split` and the `%02d`/`%05.2f` formats are modelled on ASCII text in `PyText`.
- Python's float `//`, `%` and round-half-even are in `PyNum`.
- Timestamps and dates arrive already parsed (`DateTime`).

## Model

| member | source | states |
|---|---|---|
| Scraper.ParseChipTime | src/scraper.py:90-111 | a time is read only from non-blank stripped text that contains ':' |
| Scraper.ParseChipTimeBlank | src/scraper.py:92-93 | empty or whitespace-only text gives None |
| Scraper.ParseChipTimeStripped | src/scraper.py:96-99 | surrounding whitespace is ignored: the text is stripped before it is split |
| Scraper.ParseChipTimeNoColon | src/scraper.py:99-111 | text without ':' falls through both branches and gives None |
| Scraper.ParseChipTimeTooManyFields | src/scraper.py:99-111 | four or more ':'-separated fields give None |
| Scraper.ParseChipTimeThreeFields | src/scraper.py:100-104 | `H:M:S` gives `H*3600 + M*60 + S` and None as soon as one field does not parse |
| Scraper.ParseChipTimeTwoFields | src/scraper.py:105-108 | `M:S` gives `M*60 + S` and None as soon as one field does not parse |
| Scraper.HmsSeconds | src/scraper.py:100-111 | the three-field value exists exactly when hours, minutes and seconds all parse |
| Scraper.MsSeconds | src/scraper.py:105-111 | the two-field value exists exactly when minutes and seconds both parse |
| Scraper.DigitField | src/scraper.py:148-154 | a place or age is present exactly when the text is all digits, and is then the non-negative `int()` of it |
| Scraper.ParseRow | src/scraper.py:129-160 | every record carries the scraped year and no race date yet |
| Scraper.ParseRowFields | src/scraper.py:139-157 | place and age are ints exactly for digit cells; the chip time is `parse_chip_time` of stripped cell 9 |
| Scraper.KeptRows | src/scraper.py:124-127 | the kept rows are rows of the table, each with at least 13 cells |
| Scraper.KeptRowsAppend | src/scraper.py:124-127 | rows are kept or skipped independently and keep their relative order |
| Scraper.KeptRowsSingle | src/scraper.py:126-127 | a row with fewer than 13 cells is skipped, any other row is kept |
| Scraper.ParsedRowsKept | src/scraper.py:124-162 | one record per kept row, in table order, each the row's mapping |
| Scraper.ParsedRowsYear | src/scraper.py:146-147 | every record carries the given year |
| Scraper.ParseResultsTable | src/scraper.py:113-168 | no table gives no results; otherwise the header row is dropped and the body rows are parsed in order |
| Analysis.ClockOf | src/analysis.py:143-145 | 0 <= minutes <= 59, 0 <= secs < 60, and hours, minutes and secs add back up to the input |
| Analysis.SecondsToTimeStr | src/analysis.py:138-147 | None (or NaN) gives None, a number gives text |
| Analysis.TimeStrToMinutes | src/analysis.py:150-154 | None gives None; otherwise the result times 60 is the input |
| Analysis.FormatFixed2Text | src/analysis.py:147 | the `05.2f` field of non-negative seconds has a digit at each end and no ':' |
| Analysis.ThreeFieldsParse | src/analysis.py:147 | three ':'-free fields joined by ':' are read by `parse_chip_time` field by field |
| Analysis.ClockTextFields | src/analysis.py:147 | the hours and minutes of the clock text read back unchanged |
| Analysis.SecondsFieldValue | src/analysis.py:147 | the seconds field reads back as the seconds rounded half-to-even to hundredths |
| Analysis.ParseClockText | src/analysis.py:143-147 | clock text reads back as hours*3600 + minutes*60 + the rounded seconds |
| Analysis.ParseSecondsToTimeStr | src/analysis.py:138-147 | reading `seconds_to_time_str(x)` with `parse_chip_time` gives x rounded half-to-even to hundredths |
| Analysis.ParseSecondsToTimeStrExact | src/analysis.py:138-147 | whole seconds (any whole number of hundredths) round-trip exactly |
| Analysis.SecondsFieldSixty | src/analysis.py:143-147 | as written, 59.996 s splits as 0 h 0 min 59.996 s and its seconds field reads `60.00` |
| Analysis.ClockOfCents | src/analysis.py:143-147 | the corrected split rounds first: minutes <= 59, seconds <= 59.99, and the parts add up to the rounded value |
| Analysis.SecondsToTimeStrRounded | src/analysis.py:138-147 | the corrected conversion keeps None for None |
| Analysis.ParseSecondsToTimeStrRounded | src/analysis.py:138-147 | the corrected text still reads back as x rounded to hundredths |
| Analysis.RoundedSecondsField | src/analysis.py:145-147 | the corrected seconds field reads back as itself and is below 60 |
| Dashboard.SecondsToMinutes | dashboard_data.py:19-23 | None stays None; otherwise within half a hundredth of seconds/60 |
| Dashboard.MinSecOf | dashboard_data.py:29-30 | 0 <= secs <= 59 and minutes*60 + secs is the floor of the seconds |
| Dashboard.SecondsToMmss | dashboard_data.py:25-31 | None stays None, a number gives text |
| Dashboard.SecsFieldText | dashboard_data.py:31 | the `02d` seconds field is exactly two digits |
| Dashboard.ParseMinSecText | dashboard_data.py:31 | `M:SS` text reads back as `M*60 + SS` |
| Dashboard.ParseSecondsToMmss | dashboard_data.py:25-31 | reading `seconds_to_mmss(s)` back with `parse_chip_time` gives the floor of s |
| Dashboard.ParseSecondsToMmssWhole | dashboard_data.py:25-31 | whole seconds round-trip exactly |
| Dashboard.ValidPairs | dashboard_data.py:38 | never longer than either list |
| Dashboard.ValidPairsMember | dashboard_data.py:38 | a pair is kept exactly when it stands at a common position with both values present |
| Dashboard.ValidPairsTruncated | dashboard_data.py:38 | `zip` stops at the shorter list |
| Dashboard.ValidPairsComplete | dashboard_data.py:38 | without missing values every position yields its pair, in order |
| Dashboard.Unzip | dashboard_data.py:43-44 | the two columns are the first and second values of the pairs |
| Dashboard.CorrelationSamples | dashboard_data.py:33-46 | None exactly when fewer than two valid pairs; otherwise two equal-length columns of them |
| Dashboard.FirstArgMin | dashboard_data.py:88-90 | `idxmin` is a smallest value's position, before which every value is larger |
| Dashboard.OverallStats | dashboard_data.py:78-93 | the block exists exactly when there are statistics rows |
| Dashboard.OverallYears | dashboard_data.py:78-85 | `years` is the rows' years ascending, `total_years` their number, `year_range` names the smallest and largest |
| Dashboard.SortedYearsEnds | dashboard_data.py:78 | the sorted years are a permutation of the rows' years running from the least to the greatest |
| Dashboard.OverallMedian | dashboard_data.py:82-87 | the overall median is the mean of the medians, between their minimum and maximum, shown in minutes and as `M:SS` |
| Dashboard.FirstArgMinUnique | dashboard_data.py:88-90 | `idxmin` finds the unique first position of the least value |
| Dashboard.LeastValue | dashboard_data.py:89-91 | `min()` of a column is its value at `idxmin` |
| Dashboard.FastestYearByWinner | dashboard_data.py:88-89 | the year of the first row with the least winning time, and that time shown |
| Dashboard.FastestYearByMedian | dashboard_data.py:90-91 | the year of the first row with the least median, and that median shown |
| Dashboard.TotalCountAppend | dashboard_data.py:92 | total finishers add up over runs of rows |
| Dashboard.ShownTime | dashboard_data.py:103-116 | each time is shown in minutes (to half a hundredth) and as `M:SS` reading back to its whole seconds |
| Dashboard.YearEntryShown | dashboard_data.py:96-118 | a per-year entry keeps year and count and shows all six times both ways |
| Dashboard.ByYearEntries | dashboard_data.py:96-120 | one entry per statistics row, in row order |
| Dashboard.MedianMinutes | dashboard_data.py:147 | the correlation's time column is each entry's median in minutes |
| Dashboard.PerformanceOf | dashboard_data.py:197-204 | a record fails exactly for a missing place, or a missing age that pandas made NaN |
| Dashboard.RecordOf | dashboard_data.py:197-204 | year, place, gender and age are the row's; the time is within 0.05 s of the chip time |
| Dashboard.Group | dashboard_data.py:187-191 | a name's group is exactly that name's rows |
| Dashboard.PerformancesFail | dashboard_data.py:196-204 | a group's records fail exactly when one row's record fails |
| Dashboard.PerformancesValues | dashboard_data.py:196-204 | otherwise they are the rows' records in row order |
| Dashboard.RiderOf | dashboard_data.py:193-213 | a rider's performances are its group's records sorted by year, counted in `years_participated` |
| Dashboard.RiderPerformancesNames | dashboard_data.py:191-193 | a name has a rider exactly when its rows number at least two |
| Dashboard.RiderPerformancesEntries | dashboard_data.py:206-212 | each rider has at least two performances, sorted by year and counted in `years_participated` |
| Dashboard.RiderPerformancesSorted | dashboard_data.py:215-216 | the riders are strictly ascending by name |
| Dashboard.RiderPerformanceRow | dashboard_data.py:196-204 | every performance is the record of one of the rider's own rows |
| Dashboard.RiderPerformancesFail | dashboard_data.py:191-204 | the extraction fails exactly when a row of a name seen twice has no record |
| Dashboard.GroupPerformances | dashboard_data.py:194-204 | the inner loop computes the group's records |
| Dashboard.AddRider | dashboard_data.py:193-213 | one outer-loop step adds the rider of a name with at least two rows |
| Dashboard.CollectRiders | dashboard_data.py:187-216 | the outer loop computes the rider list |
| Dashboard.ExtractRiderPerformances | dashboard_data.py:163-218 | as written, with the `age` column as pandas reads it |
| Dashboard.MissingAgeFails | dashboard_data.py:203 | as written, one missing age among present ages fails the extraction for a rider seen twice |
| Dashboard.MissingAgeExample | dashboard_data.py:203 | three concrete rows on which the extraction as written fails |
| Dashboard.ExtractRiderPerformancesKeepingAges | dashboard_data.py:163-218 | the corrected extraction keeps a missing age as None |
| Dashboard.KeepingAgesSpec | dashboard_data.py:197-204 | corrected: fails only for a missing place, and each performance carries its row's year, place and age |
| Dashboard.MissingAgeExampleKept | dashboard_data.py:203 | corrected: the same rows give riders |
| Weather.RaceWindow | src/weather.py:100-129 | no hourly data gives no records, and there are never more records than hours |
| Weather.WindowIndicesExact | src/weather.py:113-119 | the kept positions are ascending and are exactly those whose hour is 7 to 11 (config.py:45-46) |
| Weather.WindowUpToIndices | src/weather.py:113-127 | the records are the records of the kept positions, one for one and in order |
| Weather.RaceWindowRecords | src/weather.py:100-129 | exactly the hours 7 to 11 are kept, in order, each variable read at its position or None |
| Weather.ExtractRaceWindowData | src/weather.py:89-129 | the loop computes the race window |
| Weather.TagRecords | src/weather.py:159-164 | the count is unchanged and each record gains year, date and location while keeping its readings |
| Weather.FetchWeatherForRace | src/weather.py:131-168 | bad date, unknown location or no hourly data give []; otherwise the tagged race window |
| Weather.AtLocationMembers | src/weather.py:211-212 | a location's records are exactly the records naming it |
| Weather.Present | src/weather.py:220-222 | the kept readings are exactly the present ones |
| Weather.Column | src/weather.py:220-222 | one reading per record, in order |
| Weather.Average | src/weather.py:225 | None exactly for an empty list; otherwise the mean, between the least and the greatest reading |
| Weather.Largest | src/weather.py:226 | None for an empty list; otherwise a member not below any other |
| Weather.Smallest | src/weather.py:227 | None for an empty list; otherwise a member not above any other |
| Weather.PresentEmpty | src/weather.py:220-222 | no reading is kept exactly when all are None |
| Weather.ColumnStatistics | src/weather.py:220-232 | None exactly when no record has the reading; otherwise min <= avg <= max, the extremes are readings, and all readings lie between them |
| Weather.SummaryOfBounds | src/weather.py:224-233 | each statistic is None exactly when no reading is present; min <= avg <= max |
| Weather.AtLocationEmpty | src/weather.py:211-218 | a location has records exactly when some record names it |
| Weather.ReportedKnown | src/weather.py:214-218 | visiting start and summit reports exactly the known locations with records, each with its summary |
| Weather.GetWeatherSummary | src/weather.py:198-235 | entries exist only for "start" and "summit" with records, each the summary of its records; no records give {} |
| Database.WithoutMembers | src/database.py:116-117 | after `DELETE ... WHERE year = ?` a row remains exactly when its year is not deleted |
| Database.WithoutUnion | src/database.py:146-149 | deleting years one after another deletes them all |
| Database.WithoutAbsent | src/database.py:146-149 | deleting years no row has changes nothing |
| Database.ReplaceYearStep | src/database.py:146-149 | testing `year_exists` before deleting does not change the result |
| Database.YearCountPositive | src/database.py:130-132 | `COUNT(*) > 0` exactly when some race row has the year |
| Database.RaceReplace | src/database.py:144-180 | with replace, the batch ends the table in order and an old row stays exactly when its year is falsy or not in the batch |
| Database.RaceAppend | src/database.py:151-180 | without replace, the batch is appended and nothing is deleted |
| Database.WeatherReplace | src/database.py:195-227 | an old weather row stays exactly when its year is falsy, not in the batch, or without race rows |
| Database.ChipTimes | src/database.py:280-287 | the chip times are exactly those of the year's rows that have one |
| Database.PercentileIndex | src/database.py:295-297 | the index is below the length, and not negative for p >= 0 |
| Database.PyIndex | src/database.py:298 | Python indexing: defined exactly for -len <= i < len, and then an element |
| Database.KeyInjective | src/database.py:298 | different percentiles get different `p{p}` keys |
| Database.PickInRange | src/database.py:293-298 | for p >= 0 every pick is one of the times |
| Database.PickZero | src/database.py:295-298 | p = 0 picks the first time |
| Database.PickHundred | src/database.py:295-298 | p >= 100 picks the last time |
| Database.PercentileIndexMonotone | src/database.py:295-297 | the index does not decrease with p |
| Database.PickMonotone | src/database.py:293-298 | on ascending times the pick does not decrease with p |
| Database.PickNegative | src/database.py:295-298 | a negative p gives a truncated index at or below 0: 0 picks the first time, a negative index picks `times[len + i]`, and one below `-len` raises |
| Database.PicksFailAt | src/database.py:292-298 | one raising pick fails the whole result |
| Database.PicksFailWitness | src/database.py:292-298 | a failing result has a raising pick |
| Database.PicksKeys | src/database.py:292-298 | the result's keys are exactly the percentiles' keys |
| Database.PicksValueAt | src/database.py:292-298 | each percentile's key holds its pick |
| Database.PicksValues | src/database.py:292-298 | every percentile's key holds its pick |
| Database.DiabloDatabase.constructor | src/database.py:47-108 | a new database has both tables, empty |
| Database.DiabloDatabase.DeleteYearData | src/database.py:110-119 | the year's rows leave both tables, the rest stay in order |
| Database.DiabloDatabase.YearExists | src/database.py:121-132 | true exactly when some race row has the year |
| Database.DiabloDatabase.ReplaceRaceYear | src/database.py:146-149 | one replaced year's race rows go |
| Database.DiabloDatabase.ReplaceWeatherYear | src/database.py:197-199 | one year's weather rows go exactly when the race table has the year |
| Database.DiabloDatabase.ReplaceRaceYears | src/database.py:144-149 | the batch years' race rows go; the weather table is kept |
| Database.DiabloDatabase.AppendRaceResults | src/database.py:159-180 | the batch is appended in order |
| Database.DiabloDatabase.InsertRaceResults | src/database.py:134-183 | the race table becomes the replace-then-append table; weather is kept |
| Database.DiabloDatabase.ReplaceWeatherYears | src/database.py:195-199 | the weather rows go only for batch years that the race table holds |
| Database.DiabloDatabase.AppendWeatherData | src/database.py:208-227 | the batch is appended in order |
| Database.DiabloDatabase.InsertWeatherData | src/database.py:185-230 | the weather table becomes the replace-then-append table; race is kept |
| Database.DiabloDatabase.GetAllYears | src/database.py:242-249 | strictly ascending, and a year is listed exactly when it has race rows |
| Database.DiabloDatabase.ClearRaceResults | src/database.py:335-339 | the race table is emptied, the weather table kept |
| Database.DiabloDatabase.ClearWeatherData | src/database.py:341-345 | the weather table is emptied, the race table kept |
| Database.DiabloDatabase.GetTableCounts | src/database.py:347-357 | the counts are the two table lengths |
| Database.DiabloDatabase.YearTimes | src/database.py:280-287 | the year's chip times, ascending and a permutation of the stored ones |
| Database.DiabloDatabase.GetPercentilesByYear | src/database.py:274-300 | no times give {}; otherwise each percentile's pick under its key, or failure when a pick raises |
| Pipeline.FirstDatesKeys | main.py:221-226 | a year has a date exactly when some result of that year has a date |
| Pipeline.FirstDatesFirst | main.py:221-226 | the stored date is that of the year's first dated result |
| Pipeline.FirstDatesKept | main.py:225-226 | later results never overwrite a stored date |
| Pipeline.RaceDatesByYear | main.py:221-226 | the loop computes the first-date map |
| Pipeline.LastDatesSkipsUndated | main.py:193-197 | a row without a date is skipped |
| Pipeline.LastDatesKeys | main.py:191-197 | a year has a date exactly when one of its rows has one |
| Pipeline.LastDatesLast | main.py:191-197 | the stored date is that of the year's last dated row |
| Pipeline.StoredRaceDates | main.py:187-197 | the weather-only loop computes the last-date map |
| Pipeline.StoredEmpty | main.py:108-113 | skipping an empty insert leaves the table as inserting would |
| Pipeline.StoredForce | main.py:101-105 | with force the tables end up holding exactly the new batches |
| Pipeline.StoreData | main.py:84-113 | force clears both tables and turns replace off; the race batch goes in before the weather batch, whose replace sees the new race years |

## Left out

- Network and HTML: `get_page`, `extract_viewstate`, `get_race_date`, `scrape_year`, `scrape_all_years`, `fetch_weather_for_date` (beyond its location check) and `fetch_all_weather_data` with its `time.sleep` are I/O. A results table arrives as rows of cell texts, and an hourly response arrives as an `Hourly` value.
- `datetime.fromisoformat` and date extraction are library parsing. Timestamps and dates arrive parsed. In `fetch_weather_for_race` (src/weather.py:140-146) a date that does not parse is `None`, because the source catches the error there.
- Pipeline.StoredRaceDates: assumes every non-empty stored `race_date` parses, since the insert writes ISO text. The raise of `datetime.fromisoformat` at main.py:196 on a malformed stored date, which aborts the weather-only run, is not modelled: a `DateRow` can only be dated or undated.
- SQLite itself: connections, DDL, commits, and `get_race_results_by_year`, `get_yearly_statistics`, `get_weather_by_year` and `get_weather_summary_by_year`. The tables are in-memory sequences. `ORDER BY chip_time_seconds` is a stable sort (`Ordering.SortBy`), and `SELECT DISTINCT year ... ORDER BY year` is `Ordering.SortedDistinctInts`.
- The ISO-text conversion of dates and timestamps on insert is not modelled. Records are stored as given.
- The `race_date` field that `scrape_year` adds to parsed rows is not modelled. `parse_results_table` itself leaves it unset.
- pandas and numpy: `groupby` quantiles, `pivot_table`/`merge`, and `np.corrcoef` with its rounding. Only the samples handed to `corrcoef` are modelled.
- The weather block of `generate_dashboard_data` (dashboard_data.py:122-144) depends on pandas column names and is not modelled.
- The `datetime.now()` timestamp and the JSON assembly are not modelled.
- Plotting, console output and logging are not modelled. This includes every matplotlib function, `generate_all_plots`, `print_summary_statistics`, `run_analysis` and the `get_table_counts` report in `store_data`.
- Command-line parsing in `main()` and update_year.py are orchestration around I/O.
- Floating point: values are exact reals. `round(x, 2)` and `round(x, 1)` are stated as bounds on the distance to the exact value. `%05.2f` rounds half-to-even on the exact value. `float()` accepts ASCII decimal text only, with no exponent, `nan` or `inf`.
- `str.isdigit` is modelled on ASCII digits only. Python also accepts other Unicode digits, on which `int()` can still fail.
- PyText.ParseInt, PyText.ParseFloat: Python's `int()` and `float()` also accept `_` between digits (`int("1_0") == 10`), and `int()` accepts non-ASCII decimal digits. The model rejects both, so `parse_chip_time("1_0:00")` is None in the model but 600.0 in Python.
- Dashboard.ValidPairs, Dashboard.CorrelationSamples: `calculate_correlation` (dashboard_data.py:38) drops only `None`. A NaN, such as a year without summit weather after the left merge at src/analysis.py:133 and `round(NaN, 1)` at dashboard_data.py:127-133, passes the filter and makes the correlation `nan`. The model cannot represent that NaN and drops it like `None`.
- Weather.TagRecords: the source mutates each window dict in place. The model builds tagged copies, so aliasing of those dicts is not captured.
- Dashboard.RiderPerformancesSorted: the closing `riders_list.sort(key=name)` is not executed in the model. The list built in group order is proved already strictly sorted by name, so the sort is the identity.
- Dashboard.SecondsToMinutes: `round(x, 2)` is stated only as within half a hundredth of the exact value.
- Dashboard.RecordOf: `round(x, 1)` is stated only as within 0.05 of the exact value.

## Findings

| source | as written | input that shows it | evidently intended | confidence | as-written member | corrected member |
|---|---|---|---|---|---|---|
| src/analysis.py:143-147 | the seconds of the minute are split off before they are rounded by `%05.2f` | 59.996 s prints as `00:00:60.00` | `00:01:00.00`: round to hundredths first, then split | not executed | Analysis.SecondsFieldSixty | Analysis.SecondsToTimeStrRounded, Analysis.ParseSecondsToTimeStrRounded, Analysis.RoundedSecondsField |
| dashboard_data.py:203 | `int(row['age']) if row['age'] is not None`: pandas turns a NULL among integer ages into NaN, which passes the test and makes `int()` raise | rider A with two rows without an age, rider B with age 40 (`Dashboard.MissingAgeRows`) | a missing age stays None | not executed | Dashboard.MissingAgeFails, Dashboard.MissingAgeExample | Dashboard.ExtractRiderPerformancesKeepingAges, Dashboard.KeepingAgesSpec, Dashboard.MissingAgeExampleKept |
