/** Which calendar days must be downloaded for a city, given the hours
    already cached: `get_missing_date_ranges` and `get_dates_to_fetch`
    (src/data_import/weather.py). Timestamps are compared whole; only the
    gaps that result are cut down to calendar days. */
module Gaps {
  import opened Wrappers
  import opened Records
  import opened Calendar

  /** An inclusive range of calendar days, the pair of `YYYY-MM-DD` strings
      handed to the weather service. */
  datatype DayRange = DayRange(start: int, end: int)

  datatype RangeError = AvailableStartAfterEnd | RequestedStartAfterEnd

  /** The days to fetch so that the request is covered, given that the cache
      holds the hours from `availableStart` to `availableEnd`: the days from
      the request's start up to the day before the cache starts, and the days
      from the day after the cache ends up to the request's end. */
  function MissingDateRanges(availableStart: int, availableEnd: int, requestedStart: int, requestedEnd: int)
    : (r: Result<seq<DayRange>, RangeError>)
    ensures r == Failure(AvailableStartAfterEnd) <==> availableStart > availableEnd
    ensures r == Failure(RequestedStartAfterEnd) <==> availableStart <= availableEnd && requestedStart > requestedEnd
    ensures r.Success? ==> |r.value| <= 2
  {
    if availableStart > availableEnd then
      Failure(AvailableStartAfterEnd)
    else if requestedStart > requestedEnd then
      Failure(RequestedStartAfterEnd)
    else
      var before := if requestedStart < availableStart then [DayRange(DayOf(requestedStart), DayOf(availableStart - 24))] else [];
      var after := if requestedEnd > availableEnd then [DayRange(DayOf(availableEnd + 24), DayOf(requestedEnd))] else [];
      Success(before + after)
  }

  /** A day whose date `strftime` can write with a four-digit year. */
  predicate PrintableDay(d: int) {
    0 <= DateOfDay(d).year <= 9999
  }

  function FormatDay(d: int): (s: string)
    requires PrintableDay(d)
    ensures ParseDate(s) == Some(DateOfDay(d))
  {
    DayOfDateOfDay(d);
    ParseFormat(DateOfDay(d));
    FormatDate(DateOfDay(d))
  }

  /** A date's day is written as that date. */
  lemma FormatDayOfDate(d: Date)
    requires Printable(d)
    ensures PrintableDay(DayOfDate(d)) && FormatDay(DayOfDate(d)) == FormatDate(d)
  {
    DateOfDayOfDate(d);
  }

  /** `get_missing_date_ranges` as the program returns it: each gap as its
      first and last date written `YYYY-MM-DD`. */
  function MissingDateStrings(availableStart: int, availableEnd: int, requestedStart: int, requestedEnd: int)
    : (r: Result<seq<(string, string)>, RangeError>)
    requires PrintableDay(DayOf(requestedStart)) && PrintableDay(DayOf(availableStart) - 1)
    requires PrintableDay(DayOf(availableEnd) + 1) && PrintableDay(DayOf(requestedEnd))
    ensures var gaps := MissingDateRanges(availableStart, availableEnd, requestedStart, requestedEnd);
      && (r.Failure? <==> gaps.Failure?)
      && (r.Failure? ==> r.error == gaps.error)
      && (r.Success? ==> |r.value| == |gaps.value|)
      && (r.Success? ==> forall i :: 0 <= i < |r.value| ==>
            ParseDate(r.value[i].0) == Some(DateOfDay(gaps.value[i].start)) &&
            ParseDate(r.value[i].1) == Some(DateOfDay(gaps.value[i].end)))
  {
    match MissingDateRanges(availableStart, availableEnd, requestedStart, requestedEnd)
    case Failure(e) => Failure(e)
    case Success(gaps) =>
      assert DayOf(availableStart - 24) == DayOf(availableStart) - 1;
      assert DayOf(availableEnd + 24) == DayOf(availableEnd) + 1;
      Success(seq(|gaps|, i requires 0 <= i < |gaps| => (FormatDay(gaps[i].start), FormatDay(gaps[i].end))))
  }

  /** Day `d` lies in one of the ranges. */
  predicate InRanges(ranges: seq<DayRange>, d: int) {
    exists i :: 0 <= i < |ranges| && ranges[i].start <= d <= ranges[i].end
  }

  function Min(a: int, b: int): int { if a <= b then a else b }
  function Max(a: int, b: int): int { if a <= b then b else a }

  /** A gap before the cached hours is emitted exactly when the request starts
      earlier than the cache; it comes first, and runs from the request's day
      to the day before the cache's first day. */
  lemma BeforeGap(availableStart: int, availableEnd: int, requestedStart: int, requestedEnd: int)
    requires availableStart <= availableEnd && requestedStart <= requestedEnd
    ensures var gaps := MissingDateRanges(availableStart, availableEnd, requestedStart, requestedEnd).value;
      (requestedStart < availableStart <==>
         |gaps| > 0 && gaps[0] == DayRange(DayOf(requestedStart), DayOf(availableStart) - 1))
  {
    assert DayOf(availableStart - 24) == DayOf(availableStart) - 1;
  }

  /** A gap after the cached hours is emitted exactly when the request ends
      later than the cache; it comes last, and runs from the day after the
      cache's last day to the request's day, however late the request starts. */
  lemma AfterGap(availableStart: int, availableEnd: int, requestedStart: int, requestedEnd: int)
    requires availableStart <= availableEnd && requestedStart <= requestedEnd
    ensures var gaps := MissingDateRanges(availableStart, availableEnd, requestedStart, requestedEnd).value;
      (requestedEnd > availableEnd <==>
         |gaps| > 0 && gaps[|gaps| - 1] == DayRange(DayOf(availableEnd) + 1, DayOf(requestedEnd)))
  {
    assert DayOf(availableEnd + 24) == DayOf(availableEnd) + 1;
    assert DayOf(availableStart - 24) == DayOf(availableStart) - 1;
  }

  /** Nothing is missing exactly when the request lies within the cached
      hours, shared end points included. */
  lemma CoveredIsEmpty(availableStart: int, availableEnd: int, requestedStart: int, requestedEnd: int)
    requires availableStart <= availableEnd && requestedStart <= requestedEnd
    ensures MissingDateRanges(availableStart, availableEnd, requestedStart, requestedEnd) == Success([])
        <==> availableStart <= requestedStart && requestedEnd <= availableEnd
  {
  }

  /** The gaps come in order, each wholly before the cached days or wholly
      after them; together with the cached days they make up one unbroken
      run of days from the earlier start to the later end. A gap may reach
      beyond the request to meet the cache: it is never cut to the request. */
  lemma {:induction false} GapsBridge(availableStart: int, availableEnd: int, requestedStart: int, requestedEnd: int)
    requires availableStart <= availableEnd && requestedStart <= requestedEnd
    ensures var gaps := MissingDateRanges(availableStart, availableEnd, requestedStart, requestedEnd).value;
      && (forall i :: 0 <= i < |gaps| ==> gaps[i].end < DayOf(availableStart) || DayOf(availableEnd) < gaps[i].start)
      && (|gaps| == 2 ==> gaps[0].end < DayOf(availableStart) && DayOf(availableEnd) < gaps[1].start)
      && (forall d :: InRanges(gaps, d) || DayOf(availableStart) <= d <= DayOf(availableEnd)
            <==> Min(DayOf(requestedStart), DayOf(availableStart)) <= d <= Max(DayOf(requestedEnd), DayOf(availableEnd)))
  {
    BeforeGap(availableStart, availableEnd, requestedStart, requestedEnd);
    AfterGap(availableStart, availableEnd, requestedStart, requestedEnd);
    forall d
      ensures InRanges(MissingDateRanges(availableStart, availableEnd, requestedStart, requestedEnd).value, d) ||
              DayOf(availableStart) <= d <= DayOf(availableEnd)
          <==> Min(DayOf(requestedStart), DayOf(availableStart)) <= d <= Max(DayOf(requestedEnd), DayOf(availableEnd))
    {
      GapsBridgeDay(availableStart, availableEnd, requestedStart, requestedEnd, d);
    }
  }

  /** One day of `GapsBridge`. */
  lemma GapsBridgeDay(availableStart: int, availableEnd: int, requestedStart: int, requestedEnd: int, d: int)
    requires availableStart <= availableEnd && requestedStart <= requestedEnd
    ensures InRanges(MissingDateRanges(availableStart, availableEnd, requestedStart, requestedEnd).value, d) ||
            DayOf(availableStart) <= d <= DayOf(availableEnd)
        <==> Min(DayOf(requestedStart), DayOf(availableStart)) <= d <= Max(DayOf(requestedEnd), DayOf(availableEnd))
  {
    var gaps := MissingDateRanges(availableStart, availableEnd, requestedStart, requestedEnd).value;
    var lo, hi := DayOf(availableStart), DayOf(availableEnd);
    BeforeGap(availableStart, availableEnd, requestedStart, requestedEnd);
    AfterGap(availableStart, availableEnd, requestedStart, requestedEnd);
    var before, after := requestedStart < availableStart, requestedEnd > availableEnd;
    assert |gaps| == (if before then 1 else 0) + (if after then 1 else 0);
    if InRanges(gaps, d) {
      var k :| 0 <= k < |gaps| && gaps[k].start <= d <= gaps[k].end;
      if before && k == 0 {
        assert DayOf(requestedStart) <= d < lo;
      } else {
        assert after && k == |gaps| - 1;
        assert hi < d <= DayOf(requestedEnd);
      }
    }
    if Min(DayOf(requestedStart), lo) <= d < lo {
      assert requestedStart < availableStart;
      assert gaps[0].start <= d <= gaps[0].end;
    }
    if hi < d <= Max(DayOf(requestedEnd), hi) {
      assert requestedEnd > availableEnd;
      assert gaps[|gaps| - 1].start <= d <= gaps[|gaps| - 1].end;
    }
  }

  /** Every requested day is cached or in a gap. */
  lemma RequestCovered(availableStart: int, availableEnd: int, requestedStart: int, requestedEnd: int, d: int)
    requires availableStart <= availableEnd && requestedStart <= requestedEnd
    requires DayOf(requestedStart) <= d <= DayOf(requestedEnd)
    ensures var gaps := MissingDateRanges(availableStart, availableEnd, requestedStart, requestedEnd).value;
      InRanges(gaps, d) || DayOf(availableStart) <= d <= DayOf(availableEnd)
  {
    GapsBridge(availableStart, availableEnd, requestedStart, requestedEnd);
  }

  /** When every bound is a midnight, as when all four are dates, no gap is
      empty: each starts no later than it ends. */
  lemma MidnightGapsNonEmpty(availableStart: int, availableEnd: int, requestedStart: int, requestedEnd: int)
    requires availableStart <= availableEnd && requestedStart <= requestedEnd
    requires availableStart % 24 == 0 && availableEnd % 24 == 0
    requires requestedStart % 24 == 0 && requestedEnd % 24 == 0
    ensures var gaps := MissingDateRanges(availableStart, availableEnd, requestedStart, requestedEnd).value;
      forall i :: 0 <= i < |gaps| ==> gaps[i].start <= gaps[i].end
  {
    BeforeGap(availableStart, availableEnd, requestedStart, requestedEnd);
    AfterGap(availableStart, availableEnd, requestedStart, requestedEnd);
  }

  /** When all four bounds are dates, the gaps run from the request's first
      day to the day before the first cached day, and from the day after the
      last cached day to the request's last day. */
  lemma MidnightGaps(availableStart: int, availableEnd: int, requestedStart: int, requestedEnd: int)
    requires availableStart <= availableEnd && requestedStart <= requestedEnd
    ensures var r := MissingDateRanges(Midnight(availableStart), Midnight(availableEnd),
                                       Midnight(requestedStart), Midnight(requestedEnd));
      && (requestedStart < availableStart && requestedEnd > availableEnd ==>
            r == Success([DayRange(requestedStart, availableStart - 1), DayRange(availableEnd + 1, requestedEnd)]))
      && (requestedStart < availableStart && requestedEnd <= availableEnd ==>
            r == Success([DayRange(requestedStart, availableStart - 1)]))
      && (requestedStart >= availableStart && requestedEnd > availableEnd ==>
            r == Success([DayRange(availableEnd + 1, requestedEnd)]))
      && (requestedStart >= availableStart && requestedEnd <= availableEnd ==> r == Success([]))
  {
    DayOfMidnight(requestedStart, 0);
    DayOfMidnight(requestedEnd, 0);
    assert DayOf(Midnight(availableStart) - 24) == availableStart - 1 by {
      assert Midnight(availableStart) - 24 == Midnight(availableStart - 1);
      DayOfMidnight(availableStart - 1, 0);
    }
    assert DayOf(Midnight(availableEnd) + 24) == availableEnd + 1 by {
      assert Midnight(availableEnd) + 24 == Midnight(availableEnd + 1);
      DayOfMidnight(availableEnd + 1, 0);
    }
    var r := MissingDateRanges(Midnight(availableStart), Midnight(availableEnd),
                               Midnight(requestedStart), Midnight(requestedEnd));
    var before := if requestedStart < availableStart then [DayRange(requestedStart, availableStart - 1)] else [];
    var after := if requestedEnd > availableEnd then [DayRange(availableEnd + 1, requestedEnd)] else [];
    assert r == Success(before + after);
    assert before + [] == before;
    assert [] + after == after;
    assert [DayRange(requestedStart, availableStart - 1)] + [DayRange(availableEnd + 1, requestedEnd)]
        == [DayRange(requestedStart, availableStart - 1), DayRange(availableEnd + 1, requestedEnd)];
  }

  /** A cache that starts later than midnight of the day the request starts
      yields a first gap that ends the day before it starts. */
  lemma InvertedBeforeGap(day: int, h: int, availableEnd: int, requestedEnd: int)
    requires 0 < h < 24 && Midnight(day) + h <= availableEnd && Midnight(day) <= requestedEnd
    ensures var gaps := MissingDateRanges(Midnight(day) + h, availableEnd, Midnight(day), requestedEnd).value;
      |gaps| > 0 && gaps[0] == DayRange(day, day - 1)
  {
    BeforeGap(Midnight(day) + h, availableEnd, Midnight(day), requestedEnd);
    DayOfMidnight(day, h);
    DayOfMidnight(day, 0);
  }

  /** A cache whose last row is midnight of day `day` counts as holding the
      whole of that day: a request ending on that day gets no gap after it. */
  lemma LastMidnightCoversDay(availableStart: int, day: int, requestedStart: int)
    requires availableStart <= Midnight(day) && requestedStart <= Midnight(day)
    ensures var gaps := MissingDateRanges(availableStart, Midnight(day), requestedStart, Midnight(day)).value;
      forall i :: 0 <= i < |gaps| ==> gaps[i].end < day
  {
    BeforeGap(availableStart, Midnight(day), requestedStart, Midnight(day));
    DayOfMidnight(day, 0);
  }

  /** `get_dates_to_fetch`: with no cache, the whole request as one range,
      unchecked; with a cache, the gaps around its earliest and latest hour.
      A cache without rows has no earliest or latest hour (pandas gives
      `NaT`, and every comparison with `NaT` is false), so only the request's
      order is checked and no gap is found. */
  function DatesToFetch<V>(cache: Option<Dataset<V>>, startDay: int, endDay: int): (r: Result<seq<DayRange>, RangeError>)
    ensures cache.None? ==> r == Success([DayRange(startDay, endDay)])
    ensures cache.Some? && cache.value != [] ==>
      r == MissingDateRanges(MinHour(cache.value), MaxHour(cache.value), Midnight(startDay), Midnight(endDay))
  {
    match cache
    case None => Success([DayRange(startDay, endDay)])
    case Some(rows) =>
      if rows == [] then
        if Midnight(startDay) > Midnight(endDay) then Failure(RequestedStartAfterEnd) else Success([])
      else
        MissingDateRanges(MinHour(rows), MaxHour(rows), Midnight(startDay), Midnight(endDay))
  }

  /** With a cache, every requested day is either between the cache's first
      and last day or in a gap; a request the cache spans needs nothing. */
  lemma {:induction false} DatesToFetchCovers<V>(rows: Dataset<V>, startDay: int, endDay: int)
    requires rows != [] && startDay <= endDay
    ensures DatesToFetch(Some(rows), startDay, endDay).Success?
    ensures forall d :: startDay <= d <= endDay ==>
      InRanges(DatesToFetch(Some(rows), startDay, endDay).value, d) ||
      DayOf(MinHour(rows)) <= d <= DayOf(MaxHour(rows))
    ensures MinHour(rows) <= Midnight(startDay) && Midnight(endDay) <= MaxHour(rows) ==>
      DatesToFetch(Some(rows), startDay, endDay) == Success([])
  {
    var lo, hi := MinHour(rows), MaxHour(rows);
    forall d | startDay <= d <= endDay
      ensures InRanges(DatesToFetch(Some(rows), startDay, endDay).value, d) || DayOf(lo) <= d <= DayOf(hi)
    {
      DayOfMidnight(startDay, 0);
      DayOfMidnight(endDay, 0);
      RequestCovered(lo, hi, Midnight(startDay), Midnight(endDay), d);
    }
    CoveredIsEmpty(lo, hi, Midnight(startDay), Midnight(endDay));
  }

  /** A cache file without rows makes every well-ordered request look covered. */
  lemma EmptyCacheFetchesNothing<V>(empty: Dataset<V>, startDay: int, endDay: int)
    requires empty == []
    ensures DatesToFetch(Some(empty), startDay, endDay) ==
      if startDay > endDay then Failure(RequestedStartAfterEnd) else Success([])
  {
  }
}
