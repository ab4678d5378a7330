/** One trip record with its calendar fields already derived from
    `Start Time`, a loaded table with its schema-level optional columns, and
    the columns the statistics passes read from it. */
module Trips {
  import opened Wrappers

  /** `Start Time.dt.month` */
  type Month = m: int | 1 <= m <= 12 witness 1

  /** `Start Time.dt.hour` */
  type Hour = h: int | 0 <= h <= 23 witness 0

  /** The names `dt.day_name()` produces. */
  const WeekdayNames: seq<string> :=
    ["Monday", "Tuesday", "Wednesday", "Thursday", "Friday", "Saturday", "Sunday"]

  /** One row. `gender` and `birthYear` are `None` where the cell is NaN;
      whether the columns exist at all is a property of the table. */
  datatype Trip = Trip(
    month: Month,
    weekday: string,
    hour: Hour,
    startStation: string,
    endStation: string,
    duration: nat,
    userType: string,
    gender: Option<string>,
    birthYear: Option<int>)

  /** A loaded data frame: its rows in file order and whether the source
      file has the `Gender` and `Birth Year` columns. */
  datatype Table = Table(rows: seq<Trip>, hasGender: bool, hasBirthYear: bool)

  /** The `Start and End Station` key: start first, then " and ", then end. */
  function PairKey(startStation: string, endStation: string): (key: string)
    ensures |key| == |startStation| + 5 + |endStation|
    ensures key[..|startStation|] == startStation
    ensures key[|startStation|..|startStation| + 5] == " and "
    ensures key[|startStation| + 5..] == endStation
  {
    startStation + " and " + endStation
  }

  function Months(rows: seq<Trip>): seq<int>
  {
    seq(|rows|, i requires 0 <= i < |rows| => rows[i].month)
  }

  function Weekdays(rows: seq<Trip>): seq<string>
  {
    seq(|rows|, i requires 0 <= i < |rows| => rows[i].weekday)
  }

  function Hours(rows: seq<Trip>): seq<int>
  {
    seq(|rows|, i requires 0 <= i < |rows| => rows[i].hour)
  }

  function StartStations(rows: seq<Trip>): seq<string>
  {
    seq(|rows|, i requires 0 <= i < |rows| => rows[i].startStation)
  }

  function EndStations(rows: seq<Trip>): seq<string>
  {
    seq(|rows|, i requires 0 <= i < |rows| => rows[i].endStation)
  }

  /** The derived `Start and End Station` column, computed locally. */
  function Pairs(rows: seq<Trip>): seq<string>
  {
    seq(|rows|, i requires 0 <= i < |rows| => PairKey(rows[i].startStation, rows[i].endStation))
  }

  function UserTypes(rows: seq<Trip>): seq<string>
  {
    seq(|rows|, i requires 0 <= i < |rows| => rows[i].userType)
  }

  /** The non-missing `Gender` cells, in row order. */
  function Genders(rows: seq<Trip>): seq<string>
    decreases |rows|
  {
    if |rows| == 0 then []
    else
      Genders(rows[..|rows| - 1]) +
      match rows[|rows| - 1].gender
      case Some(g) => [g]
      case None => []
  }

  /** The non-missing `Birth Year` cells, in row order. */
  function BirthYears(rows: seq<Trip>): seq<int>
    decreases |rows|
  {
    if |rows| == 0 then []
    else
      BirthYears(rows[..|rows| - 1]) +
      match rows[|rows| - 1].birthYear
      case Some(y) => [y]
      case None => []
  }

  /** Sum of the `Trip Duration` column, in seconds. */
  function TotalSeconds(rows: seq<Trip>): nat
    decreases |rows|
  {
    if |rows| == 0 then 0
    else TotalSeconds(rows[..|rows| - 1]) + rows[|rows| - 1].duration
  }
}
