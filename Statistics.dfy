/** The four statistics passes over a loaded table: popular travel times,
    popular stations, trip durations and user demographics. Each returns a
    report instead of printing it. */
module Statistics {
  import opened Wrappers
  import opened Ordering
  import opened Aggregates
  import opened Trips

  /** `months_dict`: the names of the months the data sets cover. */
  const MonthNames: seq<string> := ["January", "February", "March", "April", "May", "June"]

  /** What makes a pass raise in the original program. */
  datatype StatsError =
    | EmptyColumn              // `mode()[0]` or the mean of a table with no rows
    | MonthNameMissing(month: int) // the popular month has no entry in `months_dict`
    | NoBirthYearValues        // `int()` of the NaN minimum of an all-missing column

  /** `time_stats`. A `...WasUniform` flag is set when the column holds a
      single value, where the original prints "In the month of ..." or
      "On ...s" instead of calling the value the most popular. */
  datatype TimeReport = TimeReport(
    month: int,
    monthName: string,
    monthWasUniform: bool,
    weekday: string,
    weekdayWasUniform: bool,
    hour: int)

  /** `station_stats` */
  datatype StationReport = StationReport(startStation: string, endStation: string, trip: string)

  /** `trip_duration_stats`, in whole minutes. */
  datatype DurationReport = DurationReport(totalMinutes: nat, meanMinutes: nat)

  /** An optional column's statistics, or the "no information available"
      message when the source file lacks the column. */
  datatype Availability<T> = Unavailable | Available(value: T)

  datatype BirthYearReport = BirthYearReport(earliest: int, latest: int, commonest: int)

  /** `user_stats` */
  datatype UserReport = UserReport(
    userTypes: map<string, nat>,
    genders: Availability<map<string, nat>>,
    birthYears: Availability<BirthYearReport>)

  /** Most popular month, weekday and start hour. */
  method TimeStats(rows: seq<Trip>) returns (r: Result<TimeReport, StatsError>)
    ensures |rows| == 0 <==> r == Err(EmptyColumn)
    ensures r.Err? && |rows| > 0 ==>
      r.error.MonthNameMissing? && IsMode(Months(rows), r.error.month, IntLe) &&
      !(1 <= r.error.month <= |MonthNames|)
    ensures r.Ok? ==>
      IsMode(Months(rows), r.value.month, IntLe) &&
      1 <= r.value.month <= |MonthNames| && r.value.monthName == MonthNames[r.value.month - 1]
    ensures r.Ok? ==>
      (r.value.monthWasUniform <==> forall i :: 0 <= i < |rows| ==> rows[i].month == rows[0].month)
    ensures r.Ok? && r.value.monthWasUniform ==> r.value.month == rows[0].month
    ensures r.Ok? ==> IsMode(Weekdays(rows), r.value.weekday, StrLe)
    ensures r.Ok? ==>
      (r.value.weekdayWasUniform <==> forall i :: 0 <= i < |rows| ==> rows[i].weekday == rows[0].weekday)
    ensures r.Ok? && r.value.weekdayWasUniform ==> r.value.weekday == rows[0].weekday
    ensures r.Ok? ==> IsMode(Hours(rows), r.value.hour, IntLe)
  {
    if |rows| == 0 {
      return Err(EmptyColumn);
    }
    IntLeIsTotalOrder();
    StrLeIsTotalOrder();
    var month, monthWasUniform := ModeWithUniformity(Months(rows), IntLe);
    assert forall i :: 0 <= i < |rows| ==> Months(rows)[i] == rows[i].month;
    if !(1 <= month <= |MonthNames|) {
      return Err(MonthNameMissing(month));
    }
    var weekday, weekdayWasUniform := ModeWithUniformity(Weekdays(rows), StrLe);
    assert forall i :: 0 <= i < |rows| ==> Weekdays(rows)[i] == rows[i].weekday;
    var hour := ModeOf(Hours(rows), IntLe);
    return Ok(TimeReport(month, MonthNames[month - 1], monthWasUniform, weekday, weekdayWasUniform, hour));
  }

  /** Most popular start station, end station and (start, end) trip. */
  method StationStats(rows: seq<Trip>) returns (r: Result<StationReport, StatsError>)
    ensures |rows| == 0 <==> r == Err(EmptyColumn)
    ensures r.Ok? ==> IsMode(StartStations(rows), r.value.startStation, StrLe)
    ensures r.Ok? ==> IsMode(EndStations(rows), r.value.endStation, StrLe)
    ensures r.Ok? ==> IsMode(Pairs(rows), r.value.trip, StrLe)
    ensures r.Ok? ==>
      (exists i :: 0 <= i < |rows| && r.value.trip == PairKey(rows[i].startStation, rows[i].endStation))
  {
    if |rows| == 0 {
      return Err(EmptyColumn);
    }
    StrLeIsTotalOrder();
    var startStation := ModeOf(StartStations(rows), StrLe);
    var endStation := ModeOf(EndStations(rows), StrLe);
    var pairs := Pairs(rows);
    var trip := ModeOf(pairs, StrLe);
    var i :| 0 <= i < |pairs| && pairs[i] == trip;
    return Ok(StationReport(startStation, endStation, trip));
  }

  /** Total and mean trip duration, truncated to whole minutes. */
  function DurationStats(rows: seq<Trip>): (r: Result<DurationReport, StatsError>)
    ensures |rows| == 0 <==> r == Err(EmptyColumn)
    ensures r.Ok? ==>
      r.value.totalMinutes * 60 <= TotalSeconds(rows) < (r.value.totalMinutes + 1) * 60
    ensures r.Ok? ==>
      r.value.meanMinutes * (60 * |rows|) <= TotalSeconds(rows) < (r.value.meanMinutes + 1) * (60 * |rows|)
  {
    if |rows| == 0 then Err(EmptyColumn)
    else Ok(DurationReport(TotalSeconds(rows) / 60, TotalSeconds(rows) / (60 * |rows|)))
  }

  /** The mean never exceeds the total. */
  lemma MeanWithinTotal(rows: seq<Trip>)
    requires |rows| > 0
    ensures DurationStats(rows).value.meanMinutes <= DurationStats(rows).value.totalMinutes
  {
    var d := DurationStats(rows).value;
    var n := |rows|;
    assert d.meanMinutes * 60 <= d.meanMinutes * (60 * n) by {
      assert 60 * n >= 60;
    }
  }

  /** User types and genders counted, birth years summarised. */
  method UserStats(t: Table) returns (r: Result<UserReport, StatsError>)
    ensures r.Err? <==> t.hasBirthYear && |BirthYears(t.rows)| == 0
    ensures r.Err? ==> r.error == NoBirthYearValues
    ensures r.Ok? ==> IsValueCounts(UserTypes(t.rows), r.value.userTypes)
    ensures r.Ok? ==> (r.value.genders.Available? <==> t.hasGender)
    ensures r.Ok? && t.hasGender ==> IsValueCounts(Genders(t.rows), r.value.genders.value)
    ensures r.Ok? ==> (r.value.birthYears.Available? <==> t.hasBirthYear)
    ensures r.Ok? && t.hasBirthYear ==>
      var b := r.value.birthYears.value;
      var years := BirthYears(t.rows);
      b.earliest in years && b.latest in years &&
      (forall i :: 0 <= i < |years| ==> b.earliest <= years[i] <= b.latest) &&
      IsMode(years, b.commonest, IntLe) &&
      b.earliest <= b.commonest <= b.latest
  {
    var userTypes := ValueCounts(UserTypes(t.rows));
    var genders: Availability<map<string, nat>> := Unavailable;
    if t.hasGender {
      var counts := ValueCounts(Genders(t.rows));
      genders := Available(counts);
    }
    var birthYears: Availability<BirthYearReport> := Unavailable;
    if t.hasBirthYear {
      var years := BirthYears(t.rows);
      if |years| == 0 {
        return Err(NoBirthYearValues);
      }
      IntLeIsTotalOrder();
      var commonest := ModeOf(years, IntLe);
      birthYears := Available(BirthYearReport(Min(years), Max(years), commonest));
    }
    return Ok(UserReport(userTypes, genders, birthYears));
  }

  /** The pair key is directional: three trips A to B and two trips B to A
      make "A and B" the one most popular trip. */
  lemma DirectedPairExample(rows: seq<Trip>)
    requires |rows| == 5
    requires forall i :: 0 <= i < 3 ==> rows[i].startStation == "A" && rows[i].endStation == "B"
    requires forall i :: 3 <= i < 5 ==> rows[i].startStation == "B" && rows[i].endStation == "A"
    ensures forall m :: IsMode(Pairs(rows), m, StrLe) <==> m == "A and B"
  {
    var ab, ba := PairKey("A", "B"), PairKey("B", "A");
    assert ab == "A and B";
    var pairs := Pairs(rows);
    assert pairs == [ab, ab, ab, ba, ba];
    assert ab != ba by {
      assert ab[0] != ba[0];
    }
    assert pairs[..5] == pairs;
    CountPrefixSteps(pairs, ab);
    CountPrefixSteps(pairs, ba);
    assert Count(pairs[..3], ab) == 3 && Count(pairs[..3], ba) == 0;
    assert Count(pairs, ab) == 3 && Count(pairs, ba) == 2;
    assert StrLe(ab, ab) by {
      StrLeReflexive(ab);
    }
    assert IsMode(pairs, ab, StrLe);
    StrLeIsTotalOrder();
    forall m | IsMode(pairs, m, StrLe)
      ensures m == ab
    {
      ModeIsUnique(pairs, m, ab, StrLe);
    }
  }

  /** Trips of 125 and 95 seconds: 220 seconds in all, 3 whole minutes;
      110 seconds on average, 1 whole minute. */
  lemma DurationExample(rows: seq<Trip>)
    requires |rows| == 2 && rows[0].duration == 125 && rows[1].duration == 95
    ensures DurationStats(rows) == Ok(DurationReport(3, 1))
  {
    assert rows[..1][..0] == [];
    assert TotalSeconds(rows[..1]) == 125;
    assert TotalSeconds(rows) == 220;
  }

  /** Months 1, 1, 3, 3: the column is not uniform, and the tie between
      January and March goes to January. */
  lemma PopularMonthExample(rows: seq<Trip>)
    requires |rows| == 4
    requires rows[0].month == 1 && rows[1].month == 1 && rows[2].month == 3 && rows[3].month == 3
    ensures !IsUnique(Months(rows))
    ensures forall m :: IsMode(Months(rows), m, IntLe) <==> m == 1
  {
    IntLeIsTotalOrder();
    var months := Months(rows);
    assert months == [1, 1, 3, 3] && months[..4] == months;
    CountPrefixSteps(months, 1);
    CountPrefixSteps(months, 3);
    assert Count(months, 1) == 2 && Count(months, 3) == 2;
    assert IsMode(months, 1, IntLe);
    forall m | IsMode(months, m, IntLe)
      ensures m == 1
    {
      ModeIsUnique(months, m, 1, IntLe);
    }
  }

  /** Weekdays Monday, Monday, Wednesday, Friday: Monday is the most
      popular. */
  lemma PopularWeekdayExample(rows: seq<Trip>)
    requires |rows| == 4
    requires rows[0].weekday == "Monday" && rows[1].weekday == "Monday"
    requires rows[2].weekday == "Wednesday" && rows[3].weekday == "Friday"
    ensures forall d :: IsMode(Weekdays(rows), d, StrLe) <==> d == "Monday"
  {
    StrLeIsTotalOrder();
    var weekdays := Weekdays(rows);
    assert weekdays == ["Monday", "Monday", "Wednesday", "Friday"] && weekdays[..4] == weekdays;
    CountPrefixSteps(weekdays, "Monday");
    CountPrefixSteps(weekdays, "Wednesday");
    CountPrefixSteps(weekdays, "Friday");
    assert Count(weekdays, "Monday") == 2;
    assert Count(weekdays, "Wednesday") == 1 && Count(weekdays, "Friday") == 1;
    assert StrLe("Monday", "Monday") by {
      StrLeReflexive("Monday");
    }
    assert IsMode(weekdays, "Monday", StrLe);
    forall d | IsMode(weekdays, d, StrLe)
      ensures d == "Monday"
    {
      ModeIsUnique(weekdays, d, "Monday", StrLe);
    }
  }

  /** Start hours 8, 8, 17, 9: hour 8 is the most popular. */
  lemma PopularHourExample(rows: seq<Trip>)
    requires |rows| == 4
    requires rows[0].hour == 8 && rows[1].hour == 8 && rows[2].hour == 17 && rows[3].hour == 9
    ensures forall h :: IsMode(Hours(rows), h, IntLe) <==> h == 8
  {
    IntLeIsTotalOrder();
    var hours := Hours(rows);
    assert hours == [8, 8, 17, 9] && hours[..4] == hours;
    CountPrefixSteps(hours, 8);
    CountPrefixSteps(hours, 17);
    CountPrefixSteps(hours, 9);
    assert Count(hours, 8) == 2 && Count(hours, 17) == 1 && Count(hours, 9) == 1;
    assert IsMode(hours, 8, IntLe);
    forall h | IsMode(hours, h, IntLe)
      ensures h == 8
    {
      ModeIsUnique(hours, h, 8, IntLe);
    }
  }
}
