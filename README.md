# Weather cache gaps, in Dafny

A model of the part of `src/data_import/weather.py` that decides which days of
hourly weather to download for a city and how the download is put together
with what is already stored:

- `get_missing_date_ranges` compares the stored span of hours with the requested
  span and returns at most two ranges of days, one before the stored span and
  one after it. It raises on an inverted stored span first, then on an inverted
  requested span.
- `get_dates_to_fetch` asks for the whole request when the city has no stored
  file. Otherwise it passes the earliest and latest stored hour to
  `get_missing_date_ranges`.
- `fetch_weather_city_from_api` builds one table from one answer of the weather
  service. The table has a row for every hour from 00:00 of the first day through
  23:00 of the last day, a column per requested variable and the city's name.
- `get_weather_data_city` downloads each gap in order, appends each download to
  the stored rows, and sorts the rows by hour.
- `get_file_path` turns a city's name into its file name.

Modelling choices:

- **Timestamps.** A timestamp is a whole number of hours since 1970-01-01 00:00.
  A day is a whole number of days since then (`DayOf(h) = h / 24`).
- **Dates.** `Calendar` gives the proleptic Gregorian conversion between day
  numbers and dates. It also gives the `YYYY-MM-DD` form of ISO 8601:2004
  section 4.1.2.2. Both round trips are proved. This is what `pd.to_datetime`
  and `strftime("%Y-%m-%d")` contribute to the gap computation.
- **Comparisons.** Stored and requested bounds are compared as whole timestamps.
  Only the gaps that result are cut down to days, as the source does.
- **The weather service** is a parameter `api`. It maps a request to one array
  of values per variable. It returns `None` when the client raises.
- **The stored file** is a parameter `cache`. It is `None` when there is no
  file, and otherwise holds the rows read from it.
- **Calls made.** The orchestrator also returns the list of requests it sent,
  so "no call", "one call per gap" and "gaps in order" can be stated.

Behaviour of the code that the model keeps as written:

- **No variable check.** Nothing checks which variables the stored rows hold.
  test_get_weather_data_city.py:291-346 expects a
  full re-fetch when a requested variable is missing. The code has only a TODO
  (weather.py:165), and the model follows the code: `Scenarios.ExistingData`
  proves that nothing is fetched and that the missing variable stays missing.
- **Nothing else after the merge.** Rows are not de-duplicated and nothing is
  saved.
- **Last stored day counts as covered.** A stored table whose last row is day D
  at 00:00 counts as covering all of day D. So hours D 01:00 to 23:00 are never
  downloaded (`Weather.PartialOverlap`). The partial-overlap tests only match
  the number of rows.
- **Gaps are not cut to the request.** A stored span of Feb 1 to 10 with a
  request of Mar 1 to 10 asks for Feb 11 to Mar 10 (`Gaps.GapsBridge`,
  `Scenarios.NoOverlap`).
- **Empty stored file.** A stored file without rows has no earliest or latest
  hour (pandas gives `NaT`, and every comparison with `NaT` is false). Such a
  file makes any correctly ordered request look covered
  (`Gaps.EmptyCacheFetchesNothing`).

## Model

| member | source | states |
|---|---|---|
| Calendar.DayOfDateOfDay | src/data_import/weather.py:37-40 | (about `DateOfDay` and `DayOfDate`) every day number is the number of a real calendar date, and converting it to its date and back gives the same day |
| Calendar.DateOfDayOfDate | src/data_import/weather.py:37-40 | (about `DayOfDate` and `DateOfDay`) converting a calendar date to its day number and back gives the same date |
| Calendar.DateOfDayInjective | src/data_import/weather.py:58-60 | two days have the same date exactly when they are the same day, so writing days as dates loses nothing |
| Calendar.DayOfDateNext | src/data_import/weather.py:50-55 | the calendar day after a real date (the next day of the month, the first of the next month, or New Year's Day) is a real date whose day number is one more |
| Calendar.DateOfDayNext | src/data_import/weather.py:50-55 | the date of day `n + 1` is the calendar day after the date of day `n`, so adding one day to a day number moves its date forward one calendar day |
| Calendar.YearStep | src/data_import/weather.py:50-55 | the year starting in March of `y + 1` begins 365 days after the one of `y`, or 366 when `y + 1` is a leap year |
| Calendar.FormatDate | src/data_import/weather.py:59 | `%Y-%m-%d` writes ten characters with dashes at positions 4 and 7 |
| Calendar.ParseDate | src/data_import/weather.py:37-40 | a text that reads as a date reads as a real calendar date with a four-digit year |
| Calendar.ParseFormat | src/data_import/weather.py:58-60 | reading back a written date gives that date |
| Calendar.FormatParse | src/data_import/weather.py:37-40 | a text that reads as a date is exactly that date's written form |
| Records.HourGrid | src/data_import/weather.py:107-111 | the hourly range from `first` to `last` holds exactly the hours from `first` through `last`, each once, in increasing order |
| Records.MinHour | src/data_import/weather.py:76 | the earliest stored hour is the hour of some row and no row is earlier |
| Records.MaxHour | src/data_import/weather.py:77 | the latest stored hour is the hour of some row and no row is later |
| Records.InsertSorted | src/data_import/weather.py:175 | putting one row into rows sorted by hour keeps them sorted |
| Records.InsertMultiset | src/data_import/weather.py:175 | putting one row into rows keeps every row and adds exactly that one |
| Records.SortByHour | src/data_import/weather.py:175 | `sort_values("date")` returns the same rows (as a multiset) in ascending order of hour |
| Records.SortKeepsLength | src/data_import/weather.py:175 | sorting keeps the number of rows |
| Records.SortKeepsRows | src/data_import/weather.py:175 | a row is in the sorted table exactly when it is in the original |
| Gaps.MissingDateRanges | src/data_import/weather.py:27-55 | fails with the stored-range error exactly when the stored start is after its end; fails with the requested-range error exactly when the stored range is ordered and the requested start is after its end; otherwise at most two gaps |
| Gaps.BeforeGap | src/data_import/weather.py:49-51 | a first gap from the request's day to the day before the stored start exists exactly when the request starts earlier than the stored rows |
| Gaps.AfterGap | src/data_import/weather.py:53-55 | a last gap from the day after the stored end to the request's day exists exactly when the request ends later than the stored rows |
| Gaps.CoveredIsEmpty | src/data_import/weather.py:49-55 | no gap exactly when the request lies within the stored span, shared end points included |
| Gaps.GapsBridge | src/data_import/weather.py:49-55 | each gap lies wholly before or after the stored days, the two gaps are in order, and gaps plus stored days make up exactly the days from the earlier start to the later end |
| Gaps.RequestCovered | src/data_import/weather.py:49-55 | every requested day is a stored day or in a gap |
| Gaps.MidnightGapsNonEmpty | src/data_import/weather.py:49-55 | when all four bounds are midnights, every gap starts no later than it ends |
| Gaps.MidnightGaps | src/data_import/weather.py:49-55 | when all four bounds are dates, the gaps are exactly: from the request's first day to the day before the first stored day, when the request starts earlier, and from the day after the last stored day to the request's last day, when the request ends later; each of the four cases is stated |
| Gaps.InvertedBeforeGap | src/data_import/weather.py:50-51 | stored rows starting after midnight of the request's first day yield a first gap that ends the day before it starts |
| Gaps.LastMidnightCoversDay | src/data_import/weather.py:54-55 | stored rows ending at day D 00:00 leave no gap on day D for a request ending on D |
| Gaps.FormatDay | src/data_import/weather.py:59 | the written form of a day reads back as that day's date |
| Gaps.FormatDayOfDate | src/data_import/weather.py:59 | the day of a date is written as that date |
| Gaps.MissingDateStrings | src/data_import/weather.py:27-60 | the returned pairs of texts fail exactly as the gaps do, are as many, and each text reads back as the date of its gap's first or last day |
| Gaps.DatesToFetch | src/data_import/weather.py:63-80 | without a stored file, the whole request unchecked; with stored rows, the gaps around their earliest and latest hour at the request's midnights |
| Gaps.DatesToFetchCovers | src/data_import/weather.py:63-80 | with stored rows an ordered request always succeeds, every requested day is stored or in a gap, and a request the rows span needs nothing |
| Gaps.EmptyCacheFetchesNothing | src/data_import/weather.py:74-80 | a stored file without rows fails only on an inverted request, and otherwise yields no gap |
| Weather.HourlyColumnsLastWins | src/data_import/weather.py:115-116 | the variable table `HourlyColumns` holds exactly the requested variables; a variable named once more later keeps the array of its last occurrence |
| Weather.ChunkIsHourlyGrid | src/data_import/weather.py:107-121 | a download (`Chunk`) succeeds exactly when the answer has an array per variable of one value per hour; it then has 24 rows per day from 00:00 of the first day through 23:00 of the last, each with the city and every requested variable, whose value in row `i` is the `i`-th value of the array answered for that variable (for a repeated variable, the array of its last mention) |
| Weather.FetchWeatherCity | src/data_import/weather.py:83-121 | the loop that fills the variable table yields the download `Chunk` describes |
| Weather.FetchAllStep | src/data_import/weather.py:169-173 | one more download after successful ones appends one request and then either its rows or its error, which ends the run |
| Weather.FetchAllFailureSticks | src/data_import/weather.py:169-173 | once a download fails, the run fails with that error whatever follows |
| Weather.FetchAllShape | src/data_import/weather.py:169-173 | the downloads of all gaps (`FetchAll`) yield as many rows as the gaps have hours, each with the city, every requested variable, and a day in some gap |
| Weather.DownloadGaps | src/data_import/weather.py:168-173 | the loop sends one request per gap in order and appends every download after the given rows; a failing download ends it with that download's error, the last request sent being the failing one and every earlier download having succeeded |
| Weather.GetWeatherDataCity | src/data_import/weather.py:138-175 | an invalid range sends nothing; otherwise one request per gap in order, and the result is the stored rows plus every download, sorted by hour; a failing download ends the run with its error, its request being the last one sent and every earlier download having succeeded |
| Weather.WellShapedFetchSucceeds | src/data_import/weather.py:102-121 | a service that answers each request with one array per variable and one value per hour makes every download succeed |
| Weather.PartialOverlap | src/data_import/weather.py:161-175 | stored rows from day F 00:00 to day L 00:00 inside a request give exactly the before and after gaps and as many rows as hours from the request's first to last midnight, yet hour L 01:00 is never present when the request goes past L |
| Weather.Lower | src/data_import/weather.py:23 | lower-casing keeps the length, leaves no capital, keeps every other character and turns each capital into its small letter |
| Weather.SpacesToUnderscores | src/data_import/weather.py:23 | keeps the length, leaves no space, keeps every other character and turns each space into `_` |
| Weather.FilePathNormalised | src/data_import/weather.py:17-24 | the file is `data/weather/<stem>.csv`, or `<stem>.csv` alone when the name starts with `/` (as `os.path.join` drops what precedes an absolute part); the stem is as long as the name, without spaces or capitals, unchanged by normalising again; names equal up to case share a file |
| Scenarios.NoOverlap | tests/data_import/test_get_dates_to_fetch.py:5-20 | Feb 1-10 stored, Mar 1-10 requested gives Feb 11 to Mar 10; the reverse gives Feb 1 to 28 |
| Scenarios.PartialOverlapGaps | tests/data_import/test_get_dates_to_fetch.py:23-38 | the two partial-overlap cases give Feb 1-4 and Feb 16-20 |
| Scenarios.ContainmentGaps | tests/data_import/test_get_dates_to_fetch.py:41-71 | a request containing the stored span gives two gaps in order; a contained or identical request gives none |
| Scenarios.EdgeGaps | tests/data_import/test_get_dates_to_fetch.py:74-107 | one-day gaps at either end, and gaps stretched to meet the stored span |
| Scenarios.SharedEndpointGaps | tests/data_import/test_get_dates_to_fetch.py:119-134 | a shared end point leaves only the gap past it |
| Scenarios.InvalidRanges | tests/data_import/test_get_dates_to_fetch.py:137-154 | inverted stored and requested ranges fail with their own errors |
| Scenarios.Feb11Text | tests/data_import/test_get_dates_to_fetch.py:11 | the gap's first day is written `2023-02-11` |
| Scenarios.Mar10Text | tests/data_import/test_get_dates_to_fetch.py:11 | the gap's last day is written `2023-03-10` |
| Scenarios.Jan4Text | tests/data_import/test_get_weather_data_city.py:182 | the request's start is written `2023-01-04` |
| Scenarios.Jan7Text | tests/data_import/test_get_weather_data_city.py:183 | the request's end is written `2023-01-07` |
| Scenarios.Jan1Text | tests/data_import/test_get_weather_data_city.py:229 | the first request's start is written `2023-01-01` |
| Scenarios.Jan2Text | tests/data_import/test_get_weather_data_city.py:230 | the first request's end is written `2023-01-02` |
| Scenarios.Jan6Text | tests/data_import/test_get_weather_data_city.py:280 | the last request's start is written `2023-01-06` |
| Scenarios.MockWellShaped | tests/data_import/utils.py:60-87 | the tests' stand-in service answers every request in the shape a download needs |
| Scenarios.Existing | tests/data_import/test_get_weather_data_city.py:72-80 | the tests' stored table has every hour from 00:00 of the first day through 00:00 of the last, each once, in increasing order, and no other hour; its first and last hours are those midnights, and every row is for Tunis with the given values |
| Scenarios.NoExistingData | tests/data_import/test_get_weather_data_city.py:7-64 | without a stored file, one request for the whole range, and 24 rows per day, each for Tunis with `temperature_2m` |
| Scenarios.SingleDayDownload | tests/data_import/test_get_weather_data_city.py:7-30 | without stored rows, one requested day gives 24 rows |
| Scenarios.SingleWeekDownload | tests/data_import/test_get_weather_data_city.py:33-64 | without stored rows, one requested week gives 168 rows |
| Scenarios.CoveredByExisting | tests/data_import/test_get_weather_data_city.py:68-139 | a stored table spanning the request sends no request and returns its own rows, sorted |
| Scenarios.ExistingData | tests/data_import/test_get_weather_data_city.py:291-346 | with 2023-01-01 to 01-03 stored, requests for 01-01 or 01-01 to 01-03 fetch nothing and return 49 rows, even when a requested variable is not stored, which then stays absent |
| Scenarios.PartialSameStart | tests/data_import/test_get_weather_data_city.py:142-190 | one request for 2023-01-04 to 01-07 and 145 rows |
| Scenarios.PartialSameEnd | tests/data_import/test_get_weather_data_city.py:193-237 | one request for 2023-01-01 to 01-02 and 145 rows |
| Scenarios.PartialBeforeAfter | tests/data_import/test_get_weather_data_city.py:240-288 | requests for 2023-01-01 to 01-02, then 2023-01-06 to 01-07, and 145 rows |

## Left out

- The weather service client (`setup_openmeteo_client`, weather.py:10-14), its
  cache, its retries and the HTTP call: the service is the parameter `api`. A
  client that raises, or an empty list of responses, is the answer `None`.
- `load_existing_data` (weather.py:124-135) and reading CSV: the stored rows are
  the parameter `cache`. `os.makedirs` in `get_file_path` (weather.py:20) is a
  file-system side effect and is left out.
- Time zones: the time zone is carried in each request and nothing else is done
  with it, as in the code.
- pandas' general date parsing: start and end dates enter as day numbers. Only
  the `YYYY-MM-DD` form is read and written (`Calendar.ParseDate`,
  `Calendar.FormatDate`). Timestamps are unbounded integers. pandas' limit of
  years 1677 to 2262 is not modelled.
- Gaps.MissingDateStrings: requires the days that can be written to have
  four-digit years: the requested first and last days, the day before the
  first stored day and the day after the last stored day. pandas timestamps
  never fall outside that range.
- Weather.Lower: lower-cases only the letters A to Z. `str.lower` also lowers
  other Unicode letters.
- A requested variable named `date` replaces the hour column of the downloaded
  table with its own array, because the loop runs after `date` is set
  (weather.py:111-115). A requested variable named `city` is itself replaced by
  the city's name, because the name is set after the loop (weather.py:119). In
  the model the hour and the city are separate fields of a row and neither
  clash is modelled.
- Records.SortByHour: states sorted order and the same rows only. The order
  among rows with equal hours, which pandas' default quicksort leaves open, is
  not stated by this contract.
- Weather.GetWeatherDataCity: its result is the rows as `Records.SortByHour`
  sorts them, an insertion sort that keeps rows with equal hours in their
  input order. pandas' default sort does not promise that order, so on tables
  with repeated hours the model fixes one of the orders pandas may give.
- Weather.FilePath: joins paths as `os.path.join` does on POSIX systems, with
  `/` as the separator. On Windows the separator and the rule for absolute
  names differ, and that is not modelled.
- The `fetching_dates is None` branch (weather.py:163-166) cannot be taken,
  because `get_dates_to_fetch` never returns `None`. It is not modelled.
- Values are carried, never inspected, so their type is a parameter. numpy's
  number types are not modelled.
- `src/data_import/import_y.py`, the `__main__` block (weather.py:178-195) and
  the CSV fixture of tests/data_import/utils.py:10-24 are not part of this
  model. The stand-in service of tests/data_import/utils.py:27-87 is modelled
  by `Scenarios.Mock`, and the tests' stored tables by `Scenarios.Existing`.
