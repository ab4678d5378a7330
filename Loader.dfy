/** `load_data`: narrows a loaded table by month and by weekday. The city
    lookup, the CSV read and the timestamp parsing happen before this point;
    the table arrives with its calendar fields derived. */
module Loader {
  import opened Wrappers
  import opened Trips
  import opened Aggregates

  /** The month names a selection may name, in calendar order. */
  const MonthFilterNames: seq<string> :=
    ["january", "february", "march", "april", "may", "june"]

  /** The weekday names a selection may name, as entered (lower case). */
  const DayFilterNames: seq<string> :=
    ["monday", "tuesday", "wednesday", "thursday", "friday", "saturday", "sunday"]

  /** Python's `list.index`: the first position of `x`, or `None` where
      Python raises `ValueError`. */
  function IndexOf<T(==)>(xs: seq<T>, x: T): (r: Option<nat>)
    ensures r.None? <==> x !in xs
    ensures r.Some? ==> r.value < |xs| && xs[r.value] == x && x !in xs[..r.value]
  {
    if |xs| == 0 then None
    else if xs[0] == x then Some(0)
    else
      match IndexOf(xs[1..], x)
      case None => None
      case Some(i) =>
        assert xs[..i + 1] == [xs[0]] + xs[1..][..i];
        Some(i + 1)
  }

  /** `months.index(month) + 1`: a month name's calendar number. */
  function MonthIndex(month: string): (r: Option<int>)
    ensures r.None? <==> month !in MonthFilterNames
    ensures r.Some? ==> 1 <= r.value <= 6 && MonthFilterNames[r.value - 1] == month
  {
    match IndexOf(MonthFilterNames, month)
    case None => None
    case Some(i) => Some(i + 1)
  }

  /** january is 1, february 2, ..., june 6. */
  lemma MonthIndexIsPosition(i: nat)
    requires i < |MonthFilterNames|
    ensures MonthIndex(MonthFilterNames[i]) == Some(i + 1)
  {
    var r := MonthIndex(MonthFilterNames[i]);
    assert forall j, k :: 0 <= j < k < |MonthFilterNames| ==> MonthFilterNames[j] != MonthFilterNames[k];
    assert MonthFilterNames[i] !in MonthFilterNames[..r.value - 1];
  }

  predicate IsAsciiLetter(c: char)
  {
    'a' <= c <= 'z' || 'A' <= c <= 'Z'
  }

  function ToUpper(c: char): char
  {
    if 'a' <= c <= 'z' then (c as int - 32) as char else c
  }

  function ToLower(c: char): char
  {
    if 'A' <= c <= 'Z' then (c as int + 32) as char else c
  }

  /** `str.title` on ASCII text: a letter is upper-cased when the character
      before it is not a letter and lower-cased otherwise. */
  function TitleFrom(s: string, afterLetter: bool): (t: string)
    ensures |t| == |s|
    ensures forall i :: 0 <= i < |s| ==>
      t[i] == if (if i == 0 then afterLetter else IsAsciiLetter(s[i - 1])) then ToLower(s[i]) else ToUpper(s[i])
  {
    if |s| == 0 then []
    else
      [if afterLetter then ToLower(s[0]) else ToUpper(s[0])] +
      TitleFrom(s[1..], IsAsciiLetter(s[0]))
  }

  /** `day.title()`: each character is upper-cased at the start of the text
      or after a non-letter, and lower-cased after a letter. */
  function Title(s: string): (t: string)
    ensures |t| == |s|
    ensures forall i :: 0 <= i < |s| ==>
      t[i] == if i > 0 && IsAsciiLetter(s[i - 1]) then ToLower(s[i]) else ToUpper(s[i])
  {
    TitleFrom(s, false)
  }

  /** Title-casing is idempotent, so a day name matches however often it
      has been title-cased. */
  lemma {:induction false} TitleIdempotent(s: string, afterLetter: bool)
    ensures TitleFrom(TitleFrom(s, afterLetter), afterLetter) == TitleFrom(s, afterLetter)
  {
    if |s| > 0 {
      var t := TitleFrom(s, afterLetter);
      assert t[1..] == TitleFrom(s[1..], IsAsciiLetter(s[0]));
      assert IsAsciiLetter(t[0]) == IsAsciiLetter(s[0]);
      TitleIdempotent(s[1..], IsAsciiLetter(s[0]));
    }
  }

  lemma {:induction false} TitleKeepsLowerTail(s: string)
    requires forall i :: 0 <= i < |s| ==> 'a' <= s[i] <= 'z'
    ensures TitleFrom(s, true) == s
  {
    if |s| > 0 {
      TitleKeepsLowerTail(s[1..]);
      assert s == [s[0]] + s[1..];
    }
  }

  /** `day.title()` on a lower-case word capitalises its first letter. */
  lemma TitleOfLowerWord(s: string)
    requires |s| > 0
    requires forall i :: 0 <= i < |s| ==> 'a' <= s[i] <= 'z'
    ensures Title(s) == [ToUpper(s[0])] + s[1..]
  {
    TitleKeepsLowerTail(s[1..]);
  }

  /** `day.title()` turns each accepted day name into the name
      `dt.day_name()` gives that weekday. */
  lemma DayTitles(i: nat)
    requires i < |DayFilterNames|
    ensures Title(DayFilterNames[i]) == WeekdayNames[i]
  {
    var d := DayFilterNames[i];
    TitleOfLowerWord(d);
  }

  /** Recursive characterisation of "a is `b` with some elements dropped". */
  ghost predicate IsSubsequence<T>(a: seq<T>, b: seq<T>)
    decreases |b|
  {
    |a| == 0 ||
    (|b| > 0 &&
     ((a[|a| - 1] == b[|b| - 1] && IsSubsequence(a[..|a| - 1], b[..|b| - 1])) ||
      IsSubsequence(a, b[..|b| - 1])))
  }

  /** Boolean-mask indexing `df[mask]`: every row satisfying `p`, with its
      multiplicity, in the original order. */
  function Filter<T(==,!new)>(xs: seq<T>, p: T -> bool): (r: seq<T>)
    ensures |r| <= |xs|
    ensures forall x :: x in r <==> x in xs && p(x)
    ensures forall v :: Count(r, v) == if p(v) then Count(xs, v) else 0
    ensures IsSubsequence(r, xs)
    decreases |xs|
  {
    if |xs| == 0 then []
    else
      var init := Filter(xs[..|xs| - 1], p);
      var last := xs[|xs| - 1];
      assert xs == xs[..|xs| - 1] + [last];
      if p(last) then
        assert (init + [last])[..|init|] == init;
        init + [last]
      else init
  }

  /** A filter whose predicate already holds of every row changes nothing. */
  lemma {:induction false} FilterKeepsAll<T(!new)>(xs: seq<T>, p: T -> bool)
    requires forall i :: 0 <= i < |xs| ==> p(xs[i])
    ensures Filter(xs, p) == xs
    decreases |xs|
  {
    if |xs| > 0 {
      FilterKeepsAll(xs[..|xs| - 1], p);
      assert xs == xs[..|xs| - 1] + [xs[|xs| - 1]];
    }
  }

  /** Two successive filters keep exactly the rows satisfying both. */
  lemma {:induction false} FilterConjunction<T(!new)>(xs: seq<T>, p: T -> bool, q: T -> bool, pq: T -> bool)
    requires forall x :: pq(x) == (p(x) && q(x))
    ensures Filter(Filter(xs, p), q) == Filter(xs, pq)
    decreases |xs|
  {
    if |xs| > 0 {
      var init := xs[..|xs| - 1];
      var last := xs[|xs| - 1];
      FilterConjunction(init, p, q, pq);
      var fp := Filter(init, p);
      if p(last) {
        assert (fp + [last])[..|fp|] == fp;
      }
    }
  }

  /** Filters by predicates that agree on every row coincide. */
  lemma {:induction false} FilterSamePredicate<T(!new)>(xs: seq<T>, p: T -> bool, q: T -> bool)
    requires forall x :: p(x) == q(x)
    ensures Filter(xs, p) == Filter(xs, q)
    decreases |xs|
  {
    if |xs| > 0 {
      FilterSamePredicate(xs[..|xs| - 1], p, q);
    }
  }

  /** The month filter keeps as many rows as the month column holds that
      month number. */
  lemma {:induction false} MonthFilterCount(rows: seq<Trip>, m: int, p: Trip -> bool)
    requires forall t :: p(t) == (t.month == m)
    ensures |Filter(rows, p)| == Count(Months(rows), m)
    decreases |rows|
  {
    if |rows| > 0 {
      var init := rows[..|rows| - 1];
      MonthFilterCount(init, m, p);
      assert Months(rows)[..|rows| - 1] == Months(init);
    }
  }

  /** The problem a load can report. */
  datatype LoadError = UnknownMonth(month: string)

  /** Whether a row survives the selection (`month`, `day`); "all" skips
      that filter. */
  predicate Selected(t: Trip, month: string, day: string)
  {
    (month == "all" || MonthIndex(month) == Some(t.month as int)) &&
    (day == "all" || t.weekday == Title(day))
  }

  /** `load_data` after the CSV read: the month filter first, then the
      weekday filter. A month outside the list is the `ValueError` of
      `list.index`; a day name is not checked, it just matches no row. */
  function LoadData(t: Table, month: string, day: string): (r: Result<Table, LoadError>)
    ensures r.Err? <==> month != "all" && month !in MonthFilterNames
    ensures r.Err? ==> r.error == UnknownMonth(month)
    ensures month == "all" && day == "all" ==> r == Ok(t)
    ensures r.Ok? ==> r.value.hasGender == t.hasGender && r.value.hasBirthYear == t.hasBirthYear
    ensures r.Ok? ==> r.value.rows == Filter(t.rows, (x: Trip) => Selected(x, month, day))
  {
    if month != "all" && MonthIndex(month).None? then Err(UnknownMonth(month))
    else
      var selected := (x: Trip) => Selected(x, month, day);
      var onDay := (x: Trip) => x.weekday == Title(day);
      var rows := (
        if month == "all" then (
          if day == "all" then (
            FilterKeepsAll(t.rows, selected);
            t.rows)
          else (
            FilterSamePredicate(t.rows, onDay, selected);
            Filter(t.rows, onDay)))
        else (
          var m := MonthIndex(month).value;
          var inMonth := (x: Trip) => x.month == m;
          if day == "all" then (
            FilterSamePredicate(t.rows, inMonth, selected);
            Filter(t.rows, inMonth))
          else (
            FilterConjunction(t.rows, inMonth, onDay, selected);
            Filter(Filter(t.rows, inMonth), onDay))));
      Ok(t.(rows := rows))
  }

  /** Loading an already loaded table again with the same selection
      changes nothing. */
  lemma LoadDataIdempotent(t: Table, month: string, day: string)
    requires month == "all" || month in MonthFilterNames
    ensures LoadData(LoadData(t, month, day).value, month, day) == LoadData(t, month, day)
  {
    var once := LoadData(t, month, day).value;
    var selected := (x: Trip) => Selected(x, month, day);
    assert forall i :: 0 <= i < |once.rows| ==> once.rows[i] in once.rows;
    FilterKeepsAll(once.rows, selected);
  }

  /** A month selection keeps exactly the rows of that month number: every
      kept row has it, and as many rows are kept as the month column holds
      that number. */
  lemma MonthSelectionExact(t: Table, month: string)
    requires month in MonthFilterNames
    ensures MonthIndex(month).Some?
    ensures LoadData(t, month, "all").Ok?
    ensures forall x :: x in LoadData(t, month, "all").value.rows <==>
                        x in t.rows && x.month == MonthIndex(month).value
    ensures |LoadData(t, month, "all").value.rows| == Count(Months(t.rows), MonthIndex(month).value)
  {
    var selected := (x: Trip) => Selected(x, month, "all");
    MonthFilterCount(t.rows, MonthIndex(month).value, selected);
  }
}
