/** Getting a city's hourly weather, downloading only the days the cache
    lacks: `fetch_weather_city_from_api`, `get_weather_data_city` and the file
    name of `get_file_path` (src/data_import/weather.py).

    The weather service is a parameter `api`: given a request it answers with
    one array of values per requested variable, in the order requested, or
    with `None` when the client gives up. The cache is a parameter too:
    `None` when the city has no file, otherwise the rows read from it. */
module Weather {
  import opened Wrappers
  import opened Records
  import opened Gaps

  datatype City = City(name: string, latitude: real, longitude: real)

  /** The parameters of one call to the weather service. */
  datatype Request = Request(city: City, range: DayRange, variables: seq<string>, timezone: string)

  datatype FetchError =
    | ServiceFailed        // the client raised
    | VariableMissing      // the answer has fewer arrays than variables requested
    | LengthMismatch       // an array's length differs from the number of hours

  datatype WeatherError = InvalidRange(range: RangeError) | FetchFailed(fetch: FetchError)

  type Api<V> = Request -> Option<seq<seq<V>>>

  // ---- One download --------------------------------------------------------

  /** The hours a download of `range` covers: from 00:00 of its first day
      through 23:00 of its last day. */
  function RangeHours(range: DayRange): seq<int> {
    HourGrid(Midnight(range.start), Midnight(range.end) + 23)
  }

  /** Number of hourly rows of a download of `range`. */
  function GridSize(range: DayRange): nat {
    if range.end < range.start then 0 else 24 * (range.end - range.start + 1)
  }

  /** The variable -> values table after the first `j` variables are stored;
      a variable named twice keeps the values stored last. */
  function HourlyColumns<V>(variables: seq<string>, arrays: seq<seq<V>>, j: nat): map<string, seq<V>>
    requires j <= |variables| && j <= |arrays|
  {
    if j == 0 then map[]
    else HourlyColumns(variables, arrays, j - 1)[variables[j - 1] := arrays[j - 1]]
  }

  /** The table stores each variable among the first `j`, with the array of
      its last occurrence, and nothing else. */
  lemma {:induction false} HourlyColumnsLastWins<V>(variables: seq<string>, arrays: seq<seq<V>>, j: nat, k: nat)
    requires j <= |variables| && j <= |arrays|
    requires k < j
    ensures HourlyColumns(variables, arrays, j).Keys == set i | 0 <= i < j :: variables[i]
    ensures (forall i :: k < i < j ==> variables[i] != variables[k]) ==>
      HourlyColumns(variables, arrays, j)[variables[k]] == arrays[k]
  {
    if k < j - 1 {
      HourlyColumnsLastWins(variables, arrays, j - 1, k);
    } else if j > 1 {
      HourlyColumnsLastWins(variables, arrays, j - 1, 0);
    }
    var s := set i | 0 <= i < j :: variables[i];
    var s' := set i | 0 <= i < j - 1 :: variables[i];
    assert s == s' + {variables[j - 1]} by {
      forall v | v in s ensures v in s' + {variables[j - 1]} {
        var i :| 0 <= i < j && variables[i] == v;
        if i < j - 1 { assert variables[i] in s'; }
      }
    }
    if j == 1 {
      assert s' == {};
    }
  }

  /** The rows of a downloaded table: one per hour, tagged with the city,
      holding each variable's value at that hour. */
  function Frame<V>(hours: seq<int>, name: string, columns: map<string, seq<V>>): Dataset<V>
    requires forall v :: v in columns ==> |columns[v]| == |hours|
  {
    seq(|hours|, i requires 0 <= i < |hours| => Row(hours[i], name, map v | v in columns :: columns[v][i]))
  }

  /** What a download of `range` yields, given the service's answer. */
  function Chunk<V>(city: City, range: DayRange, variables: seq<string>, answer: Option<seq<seq<V>>>)
    : Result<Dataset<V>, FetchError>
  {
    match answer
    case None => Failure(ServiceFailed)
    case Some(arrays) =>
      if |arrays| < |variables| then Failure(VariableMissing)
      else
        var hours := RangeHours(range);
        var columns := HourlyColumns(variables, arrays, |variables|);
        if forall v :: v in columns ==> |columns[v]| == |hours| then Success(Frame(hours, city.name, columns))
        else Failure(LengthMismatch)
  }

  /** A download succeeds exactly when the service answers with an array for
      every variable and each stored array has one value per hour; it then
      has one row per hour from 00:00 of the first day through 23:00 of the
      last, each carrying the city's name and every requested variable. */
  lemma {:induction false} ChunkIsHourlyGrid<V>(city: City, range: DayRange, variables: seq<string>, answer: Option<seq<seq<V>>>)
    ensures Chunk(city, range, variables, answer).Success? <==>
      answer.Some? && |answer.value| >= |variables| &&
      forall j :: 0 <= j < |variables| && (forall i :: j < i < |variables| ==> variables[i] != variables[j]) ==>
        |answer.value[j]| == GridSize(range)
    ensures Chunk(city, range, variables, answer).Success? ==>
      var rows := Chunk(city, range, variables, answer).value;
      && |rows| == GridSize(range)
      && (forall i :: 0 <= i < |rows| ==> rows[i].hour == Midnight(range.start) + i)
      && (forall i :: 0 <= i < |rows| ==> rows[i].city == city.name)
      && (forall i :: 0 <= i < |rows| ==> rows[i].values.Keys == set j | 0 <= j < |variables| :: variables[j])
      && (|rows| > 0 ==> rows[|rows| - 1].hour == Midnight(range.end) + 23)
      && (forall i, j ::
            (0 <= i < |rows| && 0 <= j < |variables| &&
             forall k :: j < k < |variables| ==> variables[k] != variables[j]) ==>
            variables[j] in rows[i].values && i < |answer.value[j]| &&
            rows[i].values[variables[j]] == answer.value[j][i])
  {
    ChunkShape(city, range, variables, answer);
    if Chunk(city, range, variables, answer).Success? {
      ChunkValues(city, range, variables, answer);
    }
  }

  /** The shape of a download, without its values. */
  lemma {:induction false} ChunkShape<V>(city: City, range: DayRange, variables: seq<string>, answer: Option<seq<seq<V>>>)
    ensures Chunk(city, range, variables, answer).Success? <==>
      answer.Some? && |answer.value| >= |variables| &&
      forall j :: 0 <= j < |variables| && (forall i :: j < i < |variables| ==> variables[i] != variables[j]) ==>
        |answer.value[j]| == GridSize(range)
    ensures Chunk(city, range, variables, answer).Success? ==>
      var rows := Chunk(city, range, variables, answer).value;
      && |rows| == GridSize(range)
      && (forall i :: 0 <= i < |rows| ==> rows[i].hour == Midnight(range.start) + i)
      && (forall i :: 0 <= i < |rows| ==> rows[i].city == city.name)
      && (forall i :: 0 <= i < |rows| ==> rows[i].values.Keys == set j | 0 <= j < |variables| :: variables[j])
      && (|rows| > 0 ==> rows[|rows| - 1].hour == Midnight(range.end) + 23)
  {
    if answer.Some? && |answer.value| >= |variables| {
      var arrays := answer.value;
      var columns := HourlyColumns(variables, arrays, |variables|);
      var hours := RangeHours(range);
      assert |hours| == GridSize(range);
      if |variables| > 0 {
        HourlyColumnsLastWins(variables, arrays, |variables|, 0);
      } else {
        assert columns == map[];
      }
      var wanted := forall j :: 0 <= j < |variables| && (forall i :: j < i < |variables| ==> variables[i] != variables[j]) ==>
        |arrays[j]| == GridSize(range);
      var stored := forall v :: v in columns ==> |columns[v]| == |hours|;
      if stored {
        forall j | 0 <= j < |variables| && (forall i :: j < i < |variables| ==> variables[i] != variables[j])
          ensures |arrays[j]| == GridSize(range)
        {
          HourlyColumnsLastWins(variables, arrays, |variables|, j);
        }
      }
      if wanted {
        forall v | v in columns ensures |columns[v]| == |hours| {
          var k :| 0 <= k < |variables| && variables[k] == v;
          var last := LastOccurrence(variables, k);
          HourlyColumnsLastWins(variables, arrays, |variables|, last);
        }
      }
    }
  }

  /** Each row of a successful download holds, for every variable, the value
      at the row's position in the array the service answered for that
      variable's last mention. */
  lemma ChunkValues<V>(city: City, range: DayRange, variables: seq<string>, answer: Option<seq<seq<V>>>)
    requires Chunk(city, range, variables, answer).Success?
    ensures forall i, j ::
      (0 <= i < |Chunk(city, range, variables, answer).value| && 0 <= j < |variables| &&
       forall k :: j < k < |variables| ==> variables[k] != variables[j]) ==>
      variables[j] in Chunk(city, range, variables, answer).value[i].values && i < |answer.value[j]| &&
      Chunk(city, range, variables, answer).value[i].values[variables[j]] == answer.value[j][i]
  {
    var hours := RangeHours(range);
    var columns := HourlyColumns(variables, answer.value, |variables|);
    var rows := Frame(hours, city.name, columns);
    assert Chunk(city, range, variables, answer).value == rows;
    forall i, j | 0 <= i < |rows| && 0 <= j < |variables| &&
        (forall k :: j < k < |variables| ==> variables[k] != variables[j])
      ensures variables[j] in rows[i].values && i < |answer.value[j]| && rows[i].values[variables[j]] == answer.value[j][i]
    {
      HourlyColumnsLastWins(variables, answer.value, |variables|, j);
      assert rows[i].values == map v | v in columns :: columns[v][i];
    }
  }

  /** The last position at or after `k` that names the same variable as `k`. */
  lemma LastOccurrence(variables: seq<string>, k: nat) returns (last: nat)
    requires k < |variables|
    ensures k <= last < |variables| && variables[last] == variables[k]
    ensures forall i :: last < i < |variables| ==> variables[i] != variables[last]
    decreases |variables| - k
  {
    var next := k + 1;
    while next < |variables| && variables[next] != variables[k]
      invariant k < next <= |variables|
      invariant forall i :: k < i < next ==> variables[i] != variables[k]
      decreases |variables| - next
    {
      next := next + 1;
    }
    if next == |variables| {
      last := k;
    } else {
      last := LastOccurrence(variables, next);
    }
  }

  /** `fetch_weather_city_from_api`: one call to the service, then the
      hourly table built from its answer. */
  method FetchWeatherCity<V>(city: City, range: DayRange, variables: seq<string>, timezone: string, api: Api<V>)
    returns (r: Result<Dataset<V>, FetchError>)
    ensures r == Chunk(city, range, variables, api(Request(city, range, variables, timezone)))
  {
    var answer := api(Request(city, range, variables, timezone));
    if answer.None? {
      return Failure(ServiceFailed);
    }
    var arrays := answer.value;
    var hours := RangeHours(range);
    var hourlyData: map<string, seq<V>> := map[];
    for j := 0 to |variables|
      invariant j <= |arrays|
      invariant hourlyData == HourlyColumns(variables, arrays, j)
    {
      if j == |arrays| {
        return Failure(VariableMissing);
      }
      hourlyData := hourlyData[variables[j] := arrays[j]];
    }
    if forall v :: v in hourlyData ==> |hourlyData[v]| == |hours| {
      r := Success(Frame(hours, city.name, hourlyData));
    } else {
      r := Failure(LengthMismatch);
    }
  }

  // ---- All downloads for one request ---------------------------------------

  /** The requests sent for the gaps, one per gap, in order. */
  function RequestsFor(city: City, gaps: seq<DayRange>, variables: seq<string>, timezone: string): seq<Request> {
    seq(|gaps|, i requires 0 <= i < |gaps| => Request(city, gaps[i], variables, timezone))
  }

  /** The rows of the downloads of the gaps, in order, or the error of the
      first download that fails. */
  function FetchAll<V>(city: City, gaps: seq<DayRange>, variables: seq<string>, timezone: string, api: Api<V>)
    : Result<Dataset<V>, FetchError>
    decreases |gaps|
  {
    if gaps == [] then Success([])
    else
      var last := gaps[|gaps| - 1];
      match FetchAll(city, gaps[..|gaps| - 1], variables, timezone, api)
      case Failure(e) => Failure(e)
      case Success(rows) =>
        match Chunk(city, last, variables, api(Request(city, last, variables, timezone)))
        case Failure(e) => Failure(e)
        case Success(chunk) => Success(rows + chunk)
  }

  /** Once a download fails, the whole run fails with that error. */
  lemma {:induction false} FetchAllFailureSticks<V>(city: City, gaps: seq<DayRange>, k: nat,
                                                   variables: seq<string>, timezone: string, api: Api<V>)
    requires k <= |gaps| && FetchAll(city, gaps[..k], variables, timezone, api).Failure?
    ensures FetchAll(city, gaps, variables, timezone, api) == FetchAll(city, gaps[..k], variables, timezone, api)
    decreases |gaps|
  {
    if k < |gaps| {
      assert gaps[..|gaps| - 1][..k] == gaps[..k];
      FetchAllFailureSticks(city, gaps[..|gaps| - 1], k, variables, timezone, api);
    } else {
      assert gaps[..k] == gaps;
    }
  }

  /** Number of rows the downloads of the gaps yield. */
  function TotalHours(gaps: seq<DayRange>): nat
    decreases |gaps|
  {
    if gaps == [] then 0 else TotalHours(gaps[..|gaps| - 1]) + GridSize(gaps[|gaps| - 1])
  }

  /** The downloaded rows: as many as the gaps have hours, each carrying the
      city's name and every requested variable, each on a day of some gap. */
  lemma {:induction false} FetchAllShape<V>(city: City, gaps: seq<DayRange>, variables: seq<string>, timezone: string, api: Api<V>)
    requires FetchAll(city, gaps, variables, timezone, api).Success?
    ensures var rows := FetchAll(city, gaps, variables, timezone, api).value;
      && |rows| == TotalHours(gaps)
      && (forall i :: 0 <= i < |rows| ==> rows[i].city == city.name)
      && (forall i :: 0 <= i < |rows| ==> rows[i].values.Keys == set j | 0 <= j < |variables| :: variables[j])
      && (forall i :: 0 <= i < |rows| ==> InRanges(gaps, DayOf(rows[i].hour)))
    decreases |gaps|
  {
    if gaps != [] {
      var init, last := gaps[..|gaps| - 1], gaps[|gaps| - 1];
      FetchAllShape(city, init, variables, timezone, api);
      var answer := api(Request(city, last, variables, timezone));
      ChunkShape(city, last, variables, answer);
      var before := FetchAll(city, init, variables, timezone, api).value;
      var chunk := Chunk(city, last, variables, answer).value;
      var rows := before + chunk;
      forall i | 0 <= i < |rows| ensures InRanges(gaps, DayOf(rows[i].hour)) {
        if i < |before| {
          var k :| 0 <= k < |init| && init[k].start <= DayOf(before[i].hour) <= init[k].end;
          assert gaps[k] == init[k];
        } else {
          var h := i - |before|;
          assert chunk[h].hour == Midnight(last.start) + h;
          assert last.start <= DayOf(rows[i].hour) <= last.end;
          assert gaps[|gaps| - 1] == last;
        }
      }
    }
  }

  /** The rows of a cache read from a file, or none when there is no file. */
  function CachedRows<V>(cache: Option<Dataset<V>>): Dataset<V> {
    if cache.Some? then cache.value else []
  }

  /** `get_weather_data_city`: work out the missing days, download each gap
      in turn, add each download to the cached rows, and sort by hour.
      `requests` lists the calls made to the service, in order. A failed
      download ends the run: the rows fetched so far are dropped. Nothing is
      checked about which variables the cache holds, nothing is de-duplicated
      and nothing is saved. */
  method GetWeatherDataCity<V>(city: City, startDay: int, endDay: int, variables: seq<string>, timezone: string,
                               cache: Option<Dataset<V>>, api: Api<V>)
    returns (r: Result<Dataset<V>, WeatherError>, requests: seq<Request>)
    ensures DatesToFetch(cache, startDay, endDay).Failure? ==>
      requests == [] && r == Failure(InvalidRange(DatesToFetch(cache, startDay, endDay).error))
    ensures DatesToFetch(cache, startDay, endDay).Success? ==>
      var gaps := DatesToFetch(cache, startDay, endDay).value;
      FetchAll(city, gaps, variables, timezone, api).Success? ==>
        requests == RequestsFor(city, gaps, variables, timezone) &&
        r == Success(SortByHour(CachedRows(cache) + FetchAll(city, gaps, variables, timezone, api).value))
    ensures DatesToFetch(cache, startDay, endDay).Success? ==>
      var gaps := DatesToFetch(cache, startDay, endDay).value;
      FetchAll(city, gaps, variables, timezone, api).Failure? ==>
        r == Failure(FetchFailed(FetchAll(city, gaps, variables, timezone, api).error)) &&
        0 < |requests| <= |gaps| &&
        requests == RequestsFor(city, gaps[..|requests|], variables, timezone) &&
        FetchAll(city, gaps[..|requests| - 1], variables, timezone, api).Success? &&
        FetchAll(city, gaps[..|requests|], variables, timezone, api).Failure?
  {
    var fetching := DatesToFetch(cache, startDay, endDay);
    if fetching.Failure? {
      return Failure(InvalidRange(fetching.error)), [];
    }
    var fetched;
    fetched, requests := DownloadGaps(city, fetching.value, variables, timezone, api, CachedRows(cache));
    if fetched.Failure? {
      return Failure(FetchFailed(fetched.error)), requests;
    }
    r := Success(SortByHour(fetched.value));
  }

  /** The loop of `get_weather_data_city`: download each gap in turn and add
      its rows after `existing`. A failed download ends the loop with its
      error, after the requests up to and including its own. */
  method DownloadGaps<V>(city: City, gaps: seq<DayRange>, variables: seq<string>, timezone: string, api: Api<V>,
                         existing: Dataset<V>)
    returns (r: Result<Dataset<V>, FetchError>, requests: seq<Request>)
    ensures FetchAll(city, gaps, variables, timezone, api).Success? ==>
      r == Success(existing + FetchAll(city, gaps, variables, timezone, api).value) &&
      requests == RequestsFor(city, gaps, variables, timezone)
    ensures FetchAll(city, gaps, variables, timezone, api).Failure? ==>
      r == FetchAll(city, gaps, variables, timezone, api) &&
      0 < |requests| <= |gaps| &&
      requests == RequestsFor(city, gaps[..|requests|], variables, timezone) &&
      FetchAll(city, gaps[..|requests| - 1], variables, timezone, api).Success? &&
      FetchAll(city, gaps[..|requests|], variables, timezone, api).Failure?
  {
    var rows := existing;
    requests := [];
    var i := 0;
    ghost var done: Dataset<V> := [];
    while i < |gaps|
      invariant 0 <= i <= |gaps|
      invariant requests == RequestsFor(city, gaps[..i], variables, timezone)
      invariant FetchAll(city, gaps[..i], variables, timezone, api) == Success(done)
      invariant rows == existing + done
    {
      var newData := FetchWeatherCity(city, gaps[i], variables, timezone, api);
      FetchAllStep(city, gaps, i, variables, timezone, api, done, newData);
      requests := requests + [Request(city, gaps[i], variables, timezone)];
      if newData.Failure? {
        assert |requests| == i + 1 && gaps[..|requests| - 1] == gaps[..i];
        return Failure(newData.error), requests;
      }
      rows := rows + newData.value;
      done := done + newData.value;
      i := i + 1;
    }
    assert gaps[..i] == gaps;
    r := Success(rows);
  }

  /** One more download, after earlier ones that all succeeded with `done`:
      its request is sent after theirs, and its rows follow theirs, or its
      error ends the whole run. */
  lemma FetchAllStep<V>(city: City, gaps: seq<DayRange>, i: nat, variables: seq<string>, timezone: string, api: Api<V>,
                        done: Dataset<V>, next: Result<Dataset<V>, FetchError>)
    requires i < |gaps| && FetchAll(city, gaps[..i], variables, timezone, api) == Success(done)
    requires next == Chunk(city, gaps[i], variables, api(Request(city, gaps[i], variables, timezone)))
    ensures RequestsFor(city, gaps[..i + 1], variables, timezone) ==
      RequestsFor(city, gaps[..i], variables, timezone) + [Request(city, gaps[i], variables, timezone)]
    ensures next.Success? ==> FetchAll(city, gaps[..i + 1], variables, timezone, api) == Success(done + next.value)
    ensures next.Failure? ==> FetchAll(city, gaps, variables, timezone, api) == Failure(next.error)
  {
    assert gaps[..i + 1][..i] == gaps[..i];
    if next.Failure? {
      FetchAllFailureSticks(city, gaps, i + 1, variables, timezone, api);
    }
  }

  // ---- The tests' scenarios ------------------------------------------------

  /** A service that answers every request for `variables` with one array
      per variable and one value per hour, as the tests' stand-in for it does. */
  ghost predicate WellShaped<V>(api: Api<V>, variables: seq<string>) {
    forall req: Request :: req.variables == variables ==>
      api(req).Some? && |api(req).value| >= |variables| &&
      forall j :: 0 <= j < |variables| ==> |api(req).value[j]| == GridSize(req.range)
  }

  /** With a well-shaped service every download succeeds. */
  lemma {:induction false} WellShapedFetchSucceeds<V>(city: City, gaps: seq<DayRange>, variables: seq<string>,
                                                     timezone: string, api: Api<V>)
    requires WellShaped(api, variables)
    ensures FetchAll(city, gaps, variables, timezone, api).Success?
    decreases |gaps|
  {
    if gaps != [] {
      var last := gaps[|gaps| - 1];
      WellShapedFetchSucceeds(city, gaps[..|gaps| - 1], variables, timezone, api);
      ChunkShape(city, last, variables, api(Request(city, last, variables, timezone)));
    }
  }

  /** A cache holding every hour from 00:00 of day `first` through 00:00 of
      day `last`, one row each, in order: what the tests store. */
  ghost predicate CachedGrid<V>(rows: Dataset<V>, first: int, last: int) {
    first <= last && |rows| == 24 * (last - first) + 1 &&
    forall i :: 0 <= i < |rows| ==> rows[i].hour == Midnight(first) + i
  }

  /** A cached grid runs from `first` 00:00 to `last` 00:00. */
  lemma CachedGridBounds<V>(rows: Dataset<V>, first: int, last: int)
    requires CachedGrid(rows, first, last)
    ensures MinHour(rows) == Midnight(first) && MaxHour(rows) == Midnight(last)
  {
    var k :| 0 <= k < |rows| && rows[k].hour == MinHour(rows);
    assert MinHour(rows) <= rows[0].hour;
    var l :| 0 <= l < |rows| && rows[l].hour == MaxHour(rows);
    assert rows[|rows| - 1].hour <= MaxHour(rows);
  }

  /** The days before and after the ones a cached grid inside the request holds. */
  function OuterGaps(first: int, last: int, startDay: int, endDay: int): seq<DayRange> {
    (if startDay < first then [DayRange(startDay, first - 1)] else []) +
    (if last < endDay then [DayRange(last + 1, endDay)] else [])
  }

  /** A cached grid inside the request leaves the days before and after it to fetch. */
  lemma CachedGridGaps<V>(rows: Dataset<V>, first: int, last: int, startDay: int, endDay: int)
    requires CachedGrid(rows, first, last) && startDay <= first && last <= endDay
    ensures DatesToFetch(Some(rows), startDay, endDay) == Success(OuterGaps(first, last, startDay, endDay))
  {
    CachedGridBounds(rows, first, last);
    var lo, hi, rs, re := Midnight(first), Midnight(last), Midnight(startDay), Midnight(endDay);
    BeforeGap(lo, hi, rs, re);
    AfterGap(lo, hi, rs, re);
    DayOfMidnight(first, 0);
    DayOfMidnight(last, 0);
    DayOfMidnight(startDay, 0);
    DayOfMidnight(endDay, 0);
  }

  lemma OuterGapsHours(first: int, last: int, startDay: int, endDay: int)
    requires startDay <= first <= last <= endDay
    ensures TotalHours(OuterGaps(first, last, startDay, endDay)) ==
      (if startDay < first then 24 * (first - startDay) else 0) + (if last < endDay then 24 * (endDay - last) else 0)
  {
    var gaps := OuterGaps(first, last, startDay, endDay);
    if |gaps| == 2 {
      assert gaps[..1] == [gaps[0]] && gaps[..1][..0] == [];
      assert TotalHours(gaps[..1]) == GridSize(gaps[0]);
      assert TotalHours(gaps) == GridSize(gaps[0]) + GridSize(gaps[1]);
    } else if |gaps| == 1 {
      assert gaps[..0] == [];
      assert TotalHours(gaps) == GridSize(gaps[0]);
    }
  }

  /** The partial-overlap scenarios: a cache from `first` 00:00 to `last`
      00:00 inside a request from `startDay` to `endDay`. The result has as
      many rows as the hours from `startDay` 00:00 through `endDay` 00:00,
      yet when the request reaches past `last`, the hour `last` 01:00 is
      neither cached nor downloaded. */
  lemma PartialOverlap<V>(city: City, rows: Dataset<V>, first: int, last: int, startDay: int, endDay: int,
                          variables: seq<string>, timezone: string, api: Api<V>)
    requires CachedGrid(rows, first, last) && startDay <= first && last <= endDay
    requires WellShaped(api, variables)
    ensures DatesToFetch(Some(rows), startDay, endDay).Success?
    ensures var gaps := DatesToFetch(Some(rows), startDay, endDay).value;
      && gaps == (if startDay < first then [DayRange(startDay, first - 1)] else []) +
                 (if last < endDay then [DayRange(last + 1, endDay)] else [])
      && FetchAll(city, gaps, variables, timezone, api).Success?
      && var all := rows + FetchAll(city, gaps, variables, timezone, api).value;
         |all| == 24 * (endDay - startDay) + 1 &&
         (last < endDay ==> forall i :: 0 <= i < |all| ==> all[i].hour != Midnight(last) + 1)
  {
    CachedGridGaps(rows, first, last, startDay, endDay);
    var gaps := OuterGaps(first, last, startDay, endDay);
    WellShapedFetchSucceeds(city, gaps, variables, timezone, api);
    FetchAllShape(city, gaps, variables, timezone, api);
    OuterGapsHours(first, last, startDay, endDay);
    var fetched := FetchAll(city, gaps, variables, timezone, api).value;
    var all := rows + fetched;
    if last < endDay {
      forall i | 0 <= i < |all| ensures all[i].hour != Midnight(last) + 1 {
        if i >= |rows| {
          var k :| 0 <= k < |gaps| && gaps[k].start <= DayOf(fetched[i - |rows|].hour) <= gaps[k].end;
          DayOfMidnight(last, 1);
        }
      }
    }
  }

  // ---- The cache file's name -----------------------------------------------

  function LowerChar(c: char): char {
    if 'A' <= c <= 'Z' then (c as int + ('a' as int - 'A' as int)) as char else c
  }

  /** `str.lower`, for the letters A to Z: every capital becomes its small
      letter and every other character is kept, so no capital is left. */
  function Lower(s: string): (r: string)
    ensures |r| == |s|
    ensures forall i :: 0 <= i < |r| ==> !('A' <= r[i] <= 'Z')
    ensures forall i :: 0 <= i < |s| && !('A' <= s[i] <= 'Z') ==> r[i] == s[i]
    ensures forall i :: 0 <= i < |s| && 'A' <= s[i] <= 'Z' ==> r[i] as int == s[i] as int + 32
  {
    seq(|s|, i requires 0 <= i < |s| => LowerChar(s[i]))
  }

  /** `str.replace(' ', '_')`: every space becomes `_` and every other
      character is kept, so no space is left. */
  function SpacesToUnderscores(s: string): (r: string)
    ensures |r| == |s|
    ensures forall i :: 0 <= i < |r| ==> r[i] != ' '
    ensures forall i :: 0 <= i < |s| && s[i] != ' ' ==> r[i] == s[i]
    ensures forall i :: 0 <= i < |s| && s[i] == ' ' ==> r[i] == '_'
  {
    seq(|s|, i requires 0 <= i < |s| => if s[i] == ' ' then '_' else s[i])
  }

  /** `os.path.join` of two parts on a POSIX system: a part that starts with
      `/` discards what comes before it, and a `/` is put between the parts
      unless the first is empty or already ends with one. */
  function JoinPath(dir: string, name: string): string {
    if |name| > 0 && name[0] == '/' then name
    else if dir == [] || dir[|dir| - 1] == '/' then dir + name
    else dir + "/" + name
  }

  /** `get_file_path`: where a city's rows are stored. */
  function FilePath(cityName: string): string {
    JoinPath(JoinPath("data", "weather"), SpacesToUnderscores(Lower(cityName)) + ".csv")
  }

  /** The file is `<stem>.csv` in `data/weather`, or on its own when the
      city's name starts with `/`; the stem keeps the city name's length, has
      no spaces and no capitals, and normalising it again changes nothing;
      names that differ only in the case of letters share a file. */
  lemma FilePathNormalised(cityName: string, other: string)
    ensures var stem := SpacesToUnderscores(Lower(cityName));
      && FilePath(cityName) ==
           (if |cityName| > 0 && cityName[0] == '/' then stem + ".csv" else "data/weather/" + stem + ".csv")
      && |stem| == |cityName|
      && (forall i :: 0 <= i < |stem| ==> stem[i] != ' ' && !('A' <= stem[i] <= 'Z'))
      && SpacesToUnderscores(Lower(stem)) == stem
    ensures Lower(cityName) == Lower(other) ==> FilePath(cityName) == FilePath(other)
  {
    var stem := SpacesToUnderscores(Lower(cityName));
    assert JoinPath("data", "weather") == "data/weather";
    if |cityName| > 0 {
      assert stem[0] == '/' <==> cityName[0] == '/';
    }
    assert Lower(stem) == stem;
    assert SpacesToUnderscores(stem) == stem;
  }
}
