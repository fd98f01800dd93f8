/** The weather table of one city, as a sequence of rows: an hourly
    timestamp (whole hours since 1970-01-01 00:00), the city's name and the
    value of each weather variable at that hour. The values are carried,
    never inspected, so their type is a parameter. */
module Records {

  datatype Row<V> = Row(hour: int, city: string, values: map<string, V>)

  type Dataset<V> = seq<Row<V>>

  /** The calendar day (days since 1970-01-01) an hour falls on: dropping
      the time of day, as formatting a timestamp as a date does. */
  function DayOf(hour: int): int { hour / 24 }

  /** The first hour, 00:00, of a day: a date read as a timestamp. */
  function Midnight(day: int): int { day * 24 }

  lemma DayOfMidnight(day: int, h: int)
    requires 0 <= h < 24
    ensures DayOf(Midnight(day) + h) == day
  {
  }

  /** The hours `first`, `first + 1`, ..., `last`: exactly the hours from
      `first` through `last`, each once, in increasing order. */
  function HourGrid(first: int, last: int): (g: seq<int>)
    ensures forall h :: h in g <==> first <= h <= last
    ensures forall i, j :: 0 <= i < j < |g| ==> g[i] < g[j]
  {
    var g := seq(if last < first then 0 else last - first + 1, i => first + i);
    assert forall h :: first <= h <= last ==> h in g by {
      forall h | first <= h <= last ensures h in g {
        assert g[h - first] == h;
      }
    }
    g
  }

  /** Some row of the table is for hour `h`. */
  predicate HasHour<V>(rows: Dataset<V>, h: int) {
    exists i :: 0 <= i < |rows| && rows[i].hour == h
  }

  /** The earliest hour of a non-empty table (`min` of its date column). */
  function MinHour<V>(rows: Dataset<V>): (m: int)
    requires rows != []
    ensures exists i :: 0 <= i < |rows| && rows[i].hour == m
    ensures forall i :: 0 <= i < |rows| ==> m <= rows[i].hour
  {
    if |rows| == 1 then rows[0].hour
    else
      var m := MinHour(rows[1..]);
      assert forall i :: 1 <= i < |rows| ==> rows[i] == rows[1..][i - 1];
      if rows[0].hour <= m then rows[0].hour else m
  }

  /** The latest hour of a non-empty table (`max` of its date column). */
  function MaxHour<V>(rows: Dataset<V>): (m: int)
    requires rows != []
    ensures exists i :: 0 <= i < |rows| && rows[i].hour == m
    ensures forall i :: 0 <= i < |rows| ==> rows[i].hour <= m
  {
    if |rows| == 1 then rows[0].hour
    else
      var m := MaxHour(rows[1..]);
      assert forall i :: 1 <= i < |rows| ==> rows[i] == rows[1..][i - 1];
      if rows[0].hour >= m then rows[0].hour else m
  }

  predicate SortedByHour<V>(rows: Dataset<V>) {
    forall i, j :: 0 <= i < j < |rows| ==> rows[i].hour <= rows[j].hour
  }

  /** A row no later than the first of a sorted table, put in front of it. */
  lemma SortedCons<V>(row: Row<V>, rows: Dataset<V>)
    requires SortedByHour(rows) && (rows != [] ==> row.hour <= rows[0].hour)
    ensures SortedByHour([row] + rows)
  {
    var r := [row] + rows;
    forall i, j | 0 <= i < j < |r| ensures r[i].hour <= r[j].hour {
      if i == 0 && j > 1 {
        assert rows[0].hour <= rows[j - 1].hour;
      }
    }
  }

  /** `row` put into a table sorted by hour, before the first later row. */
  function Insert<V>(row: Row<V>, rows: Dataset<V>): Dataset<V> {
    if rows == [] || row.hour <= rows[0].hour then [row] + rows
    else [rows[0]] + Insert(row, rows[1..])
  }

  /** Inserting keeps every row and adds `row`. */
  lemma {:induction false} InsertMultiset<V>(row: Row<V>, rows: Dataset<V>)
    ensures multiset(Insert(row, rows)) == multiset(rows) + multiset{row}
  {
    if rows != [] && row.hour > rows[0].hour {
      InsertMultiset(row, rows[1..]);
      assert rows == [rows[0]] + rows[1..];
    }
  }

  /** The first row after inserting is `row` or the table's first row. */
  lemma InsertFirst<V>(row: Row<V>, rows: Dataset<V>)
    ensures Insert(row, rows) != []
    ensures Insert(row, rows)[0] == row || (rows != [] && Insert(row, rows)[0] == rows[0])
  {
  }

  /** Inserting into a sorted table keeps it sorted. */
  lemma {:induction false} InsertSorted<V>(row: Row<V>, rows: Dataset<V>)
    requires SortedByHour(rows)
    ensures SortedByHour(Insert(row, rows))
  {
    if rows == [] || row.hour <= rows[0].hour {
      SortedCons(row, rows);
    } else {
      var tail := Insert(row, rows[1..]);
      InsertSorted(row, rows[1..]);
      InsertFirst(row, rows[1..]);
      SortedCons(rows[0], tail);
    }
  }

  /** `sort_values("date")`: the same rows, in ascending order of hour. */
  function SortByHour<V>(rows: Dataset<V>): (r: Dataset<V>)
    ensures SortedByHour(r)
    ensures multiset(r) == multiset(rows)
  {
    if rows == [] then []
    else
      var sorted := SortByHour(rows[1..]);
      InsertSorted(rows[0], sorted);
      InsertMultiset(rows[0], sorted);
      MultisetOfCons(rows);
      Insert(rows[0], sorted)
  }

  /** The rows of a non-empty table are its first row and the rest. */
  lemma MultisetOfCons<V>(rows: Dataset<V>)
    requires rows != []
    ensures multiset(rows) == multiset(rows[1..]) + multiset{rows[0]}
  {
    assert rows == [rows[0]] + rows[1..];
  }

  lemma SortKeepsLength<V>(rows: Dataset<V>)
    ensures |SortByHour(rows)| == |rows|
  {
    assert |multiset(SortByHour(rows))| == |multiset(rows)|;
  }

  /** Sorting keeps every row and adds none. */
  lemma SortKeepsRows<V>(rows: Dataset<V>, row: Row<V>)
    ensures row in SortByHour(rows) <==> row in rows
  {
    assert row in multiset(SortByHour(rows)) <==> row in multiset(rows);
  }
}
