/** The literal cases of tests/data_import/test_get_dates_to_fetch.py and
    tests/data_import/test_get_weather_data_city.py, stated on the model.
    Each date is named by its day ordinal (days since 1970-01-01), and
    `Midnight` of it is the date read as a timestamp. */
module Scenarios {
  import opened Wrappers
  import opened Calendar
  import opened Records
  import opened Gaps
  import opened Weather

  const Jan1_2022 := 18993
  const Jan7_2022 := 18999
  const Jan1 := 19358
  const Jan2 := 19359
  const Jan3 := 19360
  const Jan4 := 19361
  const Jan5 := 19362
  const Jan6 := 19363
  const Jan7 := 19364
  const Jan10 := 19367
  const Jan15 := 19372
  const Jan20 := 19377
  const Jan31 := 19388
  const Feb1 := 19389
  const Feb2 := 19390
  const Feb4 := 19392
  const Feb5 := 19393
  const Feb9 := 19397
  const Feb10 := 19398
  const Feb11 := 19399
  const Feb15 := 19403
  const Feb16 := 19404
  const Feb20 := 19408
  const Feb28 := 19416
  const Mar1 := 19417
  const Mar10 := 19426

  /** Day ordinals of January to March 2023, and of January 2022. */
  lemma EarlyIn2023(m: int, day: int)
    requires 1 <= m <= 3
    ensures DayOfDate(Date(2023, m, day)) == (if m == 1 then 19357 else if m == 2 then 19388 else 19416) + day
  {
  }

  lemma JanuaryIn2022(day: int)
    ensures DayOfDate(Date(2022, 1, day)) == 18992 + day
  {
  }

  /** The ordinals above are the days of the dates they are named after. */
  lemma EarlyJanuary()
    ensures DayOfDate(Date(2022, 1, 1)) == Jan1_2022 && DayOfDate(Date(2022, 1, 7)) == Jan7_2022
    ensures DayOfDate(Date(2023, 1, 1)) == Jan1 && DayOfDate(Date(2023, 1, 2)) == Jan2
    ensures DayOfDate(Date(2023, 1, 3)) == Jan3 && DayOfDate(Date(2023, 1, 4)) == Jan4
  {
    JanuaryIn2022(1); JanuaryIn2022(7);
    EarlyIn2023(1, 1); EarlyIn2023(1, 2); EarlyIn2023(1, 3); EarlyIn2023(1, 4);
  }

  lemma January()
    ensures DayOfDate(Date(2023, 1, 5)) == Jan5 && DayOfDate(Date(2023, 1, 6)) == Jan6
    ensures DayOfDate(Date(2023, 1, 7)) == Jan7 && DayOfDate(Date(2023, 1, 10)) == Jan10
    ensures DayOfDate(Date(2023, 1, 15)) == Jan15 && DayOfDate(Date(2023, 1, 20)) == Jan20
  {
    EarlyIn2023(1, 5); EarlyIn2023(1, 6); EarlyIn2023(1, 7);
    EarlyIn2023(1, 10); EarlyIn2023(1, 15); EarlyIn2023(1, 20);
  }

  lemma EarlyFebruary()
    ensures DayOfDate(Date(2023, 1, 31)) == Jan31
    ensures DayOfDate(Date(2023, 2, 1)) == Feb1 && DayOfDate(Date(2023, 2, 2)) == Feb2
    ensures DayOfDate(Date(2023, 2, 4)) == Feb4 && DayOfDate(Date(2023, 2, 5)) == Feb5
  {
    EarlyIn2023(1, 31);
    EarlyIn2023(2, 1); EarlyIn2023(2, 2); EarlyIn2023(2, 4); EarlyIn2023(2, 5);
  }

  lemma February()
    ensures DayOfDate(Date(2023, 2, 9)) == Feb9 && DayOfDate(Date(2023, 2, 10)) == Feb10
    ensures DayOfDate(Date(2023, 2, 11)) == Feb11 && DayOfDate(Date(2023, 2, 15)) == Feb15
    ensures DayOfDate(Date(2023, 2, 16)) == Feb16 && DayOfDate(Date(2023, 2, 20)) == Feb20
  {
    EarlyIn2023(2, 9); EarlyIn2023(2, 10); EarlyIn2023(2, 11);
    EarlyIn2023(2, 15); EarlyIn2023(2, 16); EarlyIn2023(2, 20);
  }

  lemma March()
    ensures DayOfDate(Date(2023, 2, 28)) == Feb28
    ensures DayOfDate(Date(2023, 3, 1)) == Mar1 && DayOfDate(Date(2023, 3, 10)) == Mar10
  {
    EarlyIn2023(2, 28); EarlyIn2023(3, 1); EarlyIn2023(3, 10);
  }

  /** The day `n` of date `d` is written as `d` is. */
  lemma WrittenAs(d: Date, n: int, s: string)
    requires Printable(d) && DayOfDate(d) == n && FormatDate(d) == s
    ensures PrintableDay(n) && FormatDay(n) == s
  {
    FormatDayOfDate(d);
  }

  // The dates the tests expect in the service's `start_date`/`end_date`.

  lemma Feb11Text() ensures PrintableDay(Feb11) && FormatDay(Feb11) == "2023-02-11" {
    EarlyIn2023(2, 11);
    FormatDigits(Date(2023, 2, 11), "2023-02-11");
    WrittenAs(Date(2023, 2, 11), Feb11, "2023-02-11");
  }

  lemma Mar10Text() ensures PrintableDay(Mar10) && FormatDay(Mar10) == "2023-03-10" {
    EarlyIn2023(3, 10);
    FormatDigits(Date(2023, 3, 10), "2023-03-10");
    WrittenAs(Date(2023, 3, 10), Mar10, "2023-03-10");
  }

  lemma Jan1Text() ensures PrintableDay(Jan1) && FormatDay(Jan1) == "2023-01-01" {
    EarlyIn2023(1, 1);
    FormatDigits(Date(2023, 1, 1), "2023-01-01");
    WrittenAs(Date(2023, 1, 1), Jan1, "2023-01-01");
  }

  lemma Jan2Text() ensures PrintableDay(Jan2) && FormatDay(Jan2) == "2023-01-02" {
    EarlyIn2023(1, 2);
    FormatDigits(Date(2023, 1, 2), "2023-01-02");
    WrittenAs(Date(2023, 1, 2), Jan2, "2023-01-02");
  }

  lemma Jan4Text() ensures PrintableDay(Jan4) && FormatDay(Jan4) == "2023-01-04" {
    EarlyIn2023(1, 4);
    FormatDigits(Date(2023, 1, 4), "2023-01-04");
    WrittenAs(Date(2023, 1, 4), Jan4, "2023-01-04");
  }

  lemma Jan6Text() ensures PrintableDay(Jan6) && FormatDay(Jan6) == "2023-01-06" {
    EarlyIn2023(1, 6);
    FormatDigits(Date(2023, 1, 6), "2023-01-06");
    WrittenAs(Date(2023, 1, 6), Jan6, "2023-01-06");
  }

  lemma Jan7Text() ensures PrintableDay(Jan7) && FormatDay(Jan7) == "2023-01-07" {
    EarlyIn2023(1, 7);
    FormatDigits(Date(2023, 1, 7), "2023-01-07");
    WrittenAs(Date(2023, 1, 7), Jan7, "2023-01-07");
  }

  // ---- get_missing_date_ranges ----------------------------------------------

  lemma NoOverlap()
    ensures MissingDateRanges(Midnight(Feb1), Midnight(Feb10), Midnight(Mar1), Midnight(Mar10))
         == Success([DayRange(Feb11, Mar10)])
    ensures MissingDateRanges(Midnight(Mar1), Midnight(Mar10), Midnight(Feb1), Midnight(Feb10))
         == Success([DayRange(Feb1, Feb28)])
  {
    MidnightGaps(Feb1, Feb10, Mar1, Mar10);
    MidnightGaps(Mar1, Mar10, Feb1, Feb10);
  }

  lemma PartialOverlapGaps()
    ensures MissingDateRanges(Midnight(Feb5), Midnight(Feb15), Midnight(Feb1), Midnight(Feb10))
         == Success([DayRange(Feb1, Feb4)])
    ensures MissingDateRanges(Midnight(Feb5), Midnight(Feb15), Midnight(Feb10), Midnight(Feb20))
         == Success([DayRange(Feb16, Feb20)])
  {
    MidnightGaps(Feb5, Feb15, Feb1, Feb10);
    MidnightGaps(Feb5, Feb15, Feb10, Feb20);
  }

  lemma ContainmentGaps()
    ensures MissingDateRanges(Midnight(Feb5), Midnight(Feb10), Midnight(Feb1), Midnight(Feb15))
         == Success([DayRange(Feb1, Feb4), DayRange(Feb11, Feb15)])
    ensures MissingDateRanges(Midnight(Feb1), Midnight(Feb15), Midnight(Feb5), Midnight(Feb10)) == Success([])
    ensures MissingDateRanges(Midnight(Feb1), Midnight(Feb10), Midnight(Feb1), Midnight(Feb10)) == Success([])
  {
    MidnightGaps(Feb5, Feb10, Feb1, Feb15);
    MidnightGaps(Feb1, Feb15, Feb5, Feb10);
    MidnightGaps(Feb1, Feb10, Feb1, Feb10);
  }

  lemma EdgeGaps()
    ensures MissingDateRanges(Midnight(Feb2), Midnight(Feb10), Midnight(Feb1), Midnight(Feb10))
         == Success([DayRange(Feb1, Feb1)])
    ensures MissingDateRanges(Midnight(Feb1), Midnight(Feb9), Midnight(Feb1), Midnight(Feb10))
         == Success([DayRange(Feb10, Feb10)])
    ensures MissingDateRanges(Midnight(Feb1), Midnight(Feb10), Midnight(Jan15), Midnight(Jan20))
         == Success([DayRange(Jan15, Jan31)])
    ensures MissingDateRanges(Midnight(Feb1), Midnight(Feb10), Midnight(Feb15), Midnight(Feb20))
         == Success([DayRange(Feb11, Feb20)])
  {
    MidnightGaps(Feb2, Feb10, Feb1, Feb10);
    MidnightGaps(Feb1, Feb9, Feb1, Feb10);
    MidnightGaps(Feb1, Feb10, Jan15, Jan20);
    MidnightGaps(Feb1, Feb10, Feb15, Feb20);
  }

  lemma SharedEndpointGaps()
    ensures MissingDateRanges(Midnight(Feb10), Midnight(Feb20), Midnight(Feb1), Midnight(Feb10))
         == Success([DayRange(Feb1, Feb9)])
    ensures MissingDateRanges(Midnight(Feb1), Midnight(Feb10), Midnight(Feb10), Midnight(Feb20))
         == Success([DayRange(Feb11, Feb20)])
  {
    MidnightGaps(Feb10, Feb20, Feb1, Feb10);
    MidnightGaps(Feb1, Feb10, Feb10, Feb20);
  }

  lemma InvalidRanges()
    ensures MissingDateRanges(Midnight(Feb10), Midnight(Feb1), Midnight(Jan1), Midnight(Jan10))
         == Failure(AvailableStartAfterEnd)
    ensures MissingDateRanges(Midnight(Jan1), Midnight(Jan10), Midnight(Jan10), Midnight(Jan1))
         == Failure(RequestedStartAfterEnd)
  {
  }

  // ---- get_weather_data_city -------------------------------------------------

  const Tunis := City("Tunis", 86.819, 10.1658)
  const Hourly := ["temperature_2m", "relative_humidity_2m"]
  const Tz := "Africa/Tunis"

  /** The tests' stand-in for the service: value `i` of a variable's array. */
  function MockValue(variable: string, i: int): real {
    if variable == "temperature_2m" then 20.0 + (i % 10) as real
    else if variable == "precipitation" then (if i % 6 != 0 then 0.0 else 1.5)
    else (i % 100) as real
  }

  /** The stand-in answers each requested variable with one value per hour
      from 00:00 of the first day through 23:00 of the last. */
  function Mock(req: Request): Option<seq<seq<real>>> {
    Some(seq(|req.variables|, j requires 0 <= j < |req.variables| =>
      seq(GridSize(req.range), i => MockValue(req.variables[j], i))))
  }

  lemma MockWellShaped(variables: seq<string>)
    ensures WellShaped(Mock, variables)
  {
  }

  /** A stored table for the city with one row per hour from `first` 00:00
      through `last` 00:00, each holding `values`: every hour of that span
      appears, once, in increasing order, and no other. */
  function Existing(first: int, last: int, values: map<string, real>): (rows: Dataset<real>)
    requires first <= last
    ensures forall i :: 0 <= i < |rows| ==> Midnight(first) <= rows[i].hour <= Midnight(last)
    ensures forall h :: Midnight(first) <= h <= Midnight(last) ==> HasHour(rows, h)
    ensures forall i, j :: 0 <= i < j < |rows| ==> rows[i].hour < rows[j].hour
    ensures rows != [] && MinHour(rows) == Midnight(first) && MaxHour(rows) == Midnight(last)
    ensures forall i :: 0 <= i < |rows| ==> rows[i].city == "Tunis" && rows[i].values == values
  {
    var rows := seq(24 * (last - first) + 1, i => Row(Midnight(first) + i, "Tunis", values));
    assert forall h :: Midnight(first) <= h <= Midnight(last) ==> HasHour(rows, h) by {
      forall h | Midnight(first) <= h <= Midnight(last) ensures HasHour(rows, h) {
        assert rows[h - Midnight(first)].hour == h;
      }
    }
    CachedGridBounds(rows, first, last);
    rows
  }

  const Stored := map["temperature_2m" := 20.0, "relative_humidity_2m" := 50.0]

  /** Without a cache file, one request for the whole range; the result has
      a row per hour of every requested day, each for the city and holding
      every requested variable. */
  lemma {:induction false} NoExistingData(startDay: int, endDay: int)
    requires startDay <= endDay
    ensures DatesToFetch<real>(None, startDay, endDay) == Success([DayRange(startDay, endDay)])
    ensures RequestsFor(Tunis, [DayRange(startDay, endDay)], Hourly, Tz) == [Request(Tunis, DayRange(startDay, endDay), Hourly, Tz)]
    ensures FetchAll(Tunis, [DayRange(startDay, endDay)], Hourly, Tz, Mock).Success?
    ensures var result := SortByHour(CachedRows<real>(None) + FetchAll(Tunis, [DayRange(startDay, endDay)], Hourly, Tz, Mock).value);
      && |result| == 24 * (endDay - startDay + 1)
      && forall row :: row in result ==> row.city == "Tunis" && "temperature_2m" in row.values
  {
    var gaps := [DayRange(startDay, endDay)];
    MockWellShaped(Hourly);
    WellShapedFetchSucceeds(Tunis, gaps, Hourly, Tz, Mock);
    FetchAllShape(Tunis, gaps, Hourly, Tz, Mock);
    var fetched := FetchAll(Tunis, gaps, Hourly, Tz, Mock).value;
    assert gaps[..0] == [];
    assert TotalHours(gaps) == GridSize(gaps[0]);
    assert CachedRows<real>(None) + fetched == fetched;
    SortKeepsLength(fetched);
    forall row | row in SortByHour(fetched) ensures row.city == "Tunis" && "temperature_2m" in row.values {
      SortKeepsRows(fetched, row);
      assert Hourly[0] == "temperature_2m";
    }
  }

  /** test_get_weather_single_day_no_existing_data: 24 rows. */
  lemma SingleDayDownload()
    ensures FetchAll(Tunis, [DayRange(Jan1, Jan1)], Hourly, Tz, Mock).Success?
    ensures |SortByHour(FetchAll(Tunis, [DayRange(Jan1, Jan1)], Hourly, Tz, Mock).value)| == 24
  {
    NoExistingData(Jan1, Jan1);
    assert CachedRows<real>(None) == [];
    assert [] + FetchAll(Tunis, [DayRange(Jan1, Jan1)], Hourly, Tz, Mock).value
        == FetchAll(Tunis, [DayRange(Jan1, Jan1)], Hourly, Tz, Mock).value;
  }

  /** test_get_weather_single_week_no_existing_data: 168 rows. */
  lemma SingleWeekDownload()
    ensures FetchAll(Tunis, [DayRange(Jan1_2022, Jan7_2022)], Hourly, Tz, Mock).Success?
    ensures |SortByHour(FetchAll(Tunis, [DayRange(Jan1_2022, Jan7_2022)], Hourly, Tz, Mock).value)| == 24 * 7
  {
    NoExistingData(Jan1_2022, Jan7_2022);
    assert CachedRows<real>(None) == [];
    assert [] + FetchAll(Tunis, [DayRange(Jan1_2022, Jan7_2022)], Hourly, Tz, Mock).value
        == FetchAll(Tunis, [DayRange(Jan1_2022, Jan7_2022)], Hourly, Tz, Mock).value;
  }

  /** A cache reaching over the whole request: no request at all, and the
      stored rows come back as they are, sorted. */
  lemma {:induction false} CoveredByExisting(first: int, last: int, startDay: int, endDay: int, values: map<string, real>)
    requires first <= startDay <= endDay <= last
    ensures DatesToFetch(Some(Existing(first, last, values)), startDay, endDay) == Success([])
    ensures RequestsFor(Tunis, [], Hourly, Tz) == []
    ensures var result := SortByHour(CachedRows(Some(Existing(first, last, values))) + []);
      && |result| == 24 * (last - first) + 1
      && forall row :: row in result ==> row.city == "Tunis" && row.values == values
  {
    var rows := Existing(first, last, values);
    DatesToFetchCovers(rows, startDay, endDay);
    assert MinHour(rows) <= rows[0].hour == Midnight(first) <= Midnight(startDay);
    assert Midnight(endDay) <= Midnight(last) == rows[|rows| - 1].hour <= MaxHour(rows);
    assert rows + [] == rows;
    SortKeepsLength(rows);
    forall row | row in SortByHour(rows) ensures row.city == "Tunis" && row.values == values {
      SortKeepsRows(rows, row);
    }
  }

  /** test_get_weather_extensive_existing_data, test_get_weather_exact_existing_data
      and test_get_weather_missing_columns_existing_dates: the stored table
      spans the request, so nothing is fetched, even when a requested
      variable is missing from it; that variable stays missing. */
  lemma ExistingData()
    ensures DatesToFetch(Some(Existing(Jan1, Jan3, Stored)), Jan1, Jan1) == Success([])
    ensures |SortByHour(Existing(Jan1, Jan3, Stored))| == 49
    ensures DatesToFetch(Some(Existing(Jan1, Jan3, Stored)), Jan1, Jan3) == Success([])
    ensures DatesToFetch(Some(Existing(Jan1, Jan3, map["temperature_2m" := 20.0])), Jan1, Jan3) == Success([])
    ensures forall row :: row in SortByHour(Existing(Jan1, Jan3, map["temperature_2m" := 20.0])) ==>
      "relative_humidity_2m" !in row.values
  {
    CoveredByExisting(Jan1, Jan3, Jan1, Jan1, Stored);
    CoveredByExisting(Jan1, Jan3, Jan1, Jan3, Stored);
    CoveredByExisting(Jan1, Jan3, Jan1, Jan3, map["temperature_2m" := 20.0]);
    assert Existing(Jan1, Jan3, Stored) + [] == Existing(Jan1, Jan3, Stored);
    assert Existing(Jan1, Jan3, map["temperature_2m" := 20.0]) + [] == Existing(Jan1, Jan3, map["temperature_2m" := 20.0]);
  }

  /** test_get_weather_partial_same_start_existing_data: one request, from
      2023-01-04 to 2023-01-07, and 145 rows, one per hour from 2023-01-01
      00:00 through 2023-01-07 00:00 in number (though not the same hours). */
  lemma PartialSameStart()
    ensures DatesToFetch(Some(Existing(Jan1, Jan3, Stored)), Jan1, Jan7) == Success([DayRange(Jan4, Jan7)])
    ensures FetchAll(Tunis, [DayRange(Jan4, Jan7)], Hourly, Tz, Mock).Success?
    ensures |SortByHour(Existing(Jan1, Jan3, Stored) + FetchAll(Tunis, [DayRange(Jan4, Jan7)], Hourly, Tz, Mock).value)| == 145
  {
    MockWellShaped(Hourly);
    PartialOverlap(Tunis, Existing(Jan1, Jan3, Stored), Jan1, Jan3, Jan1, Jan7, Hourly, Tz, Mock);
    assert [] + [DayRange(Jan4, Jan7)] == [DayRange(Jan4, Jan7)];
    SortKeepsLength(Existing(Jan1, Jan3, Stored) + FetchAll(Tunis, [DayRange(Jan4, Jan7)], Hourly, Tz, Mock).value);
  }

  /** test_get_weather_partial_same_end_existing_data: one request, from
      2023-01-01 to 2023-01-02, and 145 rows. */
  lemma PartialSameEnd()
    ensures DatesToFetch(Some(Existing(Jan3, Jan7, Stored)), Jan1, Jan7) == Success([DayRange(Jan1, Jan2)])
    ensures FetchAll(Tunis, [DayRange(Jan1, Jan2)], Hourly, Tz, Mock).Success?
    ensures |SortByHour(Existing(Jan3, Jan7, Stored) + FetchAll(Tunis, [DayRange(Jan1, Jan2)], Hourly, Tz, Mock).value)| == 145
  {
    MockWellShaped(Hourly);
    PartialOverlap(Tunis, Existing(Jan3, Jan7, Stored), Jan3, Jan7, Jan1, Jan7, Hourly, Tz, Mock);
    assert [DayRange(Jan1, Jan2)] + [] == [DayRange(Jan1, Jan2)];
    SortKeepsLength(Existing(Jan3, Jan7, Stored) + FetchAll(Tunis, [DayRange(Jan1, Jan2)], Hourly, Tz, Mock).value);
  }

  /** test_get_weather_partial_before_after_existing_data: two requests,
      2023-01-01 to 2023-01-02 first and 2023-01-06 to 2023-01-07 last, and
      145 rows. */
  lemma PartialBeforeAfter()
    ensures DatesToFetch(Some(Existing(Jan3, Jan5, Stored)), Jan1, Jan7)
         == Success([DayRange(Jan1, Jan2), DayRange(Jan6, Jan7)])
    ensures FetchAll(Tunis, [DayRange(Jan1, Jan2), DayRange(Jan6, Jan7)], Hourly, Tz, Mock).Success?
    ensures |SortByHour(Existing(Jan3, Jan5, Stored) +
              FetchAll(Tunis, [DayRange(Jan1, Jan2), DayRange(Jan6, Jan7)], Hourly, Tz, Mock).value)| == 145
  {
    MockWellShaped(Hourly);
    PartialOverlap(Tunis, Existing(Jan3, Jan5, Stored), Jan3, Jan5, Jan1, Jan7, Hourly, Tz, Mock);
    assert [DayRange(Jan1, Jan2)] + [DayRange(Jan6, Jan7)] == [DayRange(Jan1, Jan2), DayRange(Jan6, Jan7)];
    SortKeepsLength(Existing(Jan3, Jan5, Stored) +
      FetchAll(Tunis, [DayRange(Jan1, Jan2), DayRange(Jan6, Jan7)], Hourly, Tz, Mock).value);
  }
}
