# Bikeshare filter-and-aggregate pipeline, in Dafny

This project models the core of a small bikeshare explorer (`bikeshare.py`).
A user picks a city, a month (`january` … `june`, or `all`) and a weekday
(`monday` … `sunday`, or `all`). The program then narrows that city's trip
table and computes four reports:

- the popular travel times (month, weekday, start hour);
- the popular stations (start, end, and the start/end pair);
- the total and mean trip duration in whole minutes;
- user demographics (user-type counts, gender counts, birth-year range and mode).

The model keeps the source's own shape:

- `Trips` holds one trip record with its calendar fields already derived
  (`month` 1..12, `weekday` as `dt.day_name()` spells it, `hour` 0..23). It
  also holds a table that carries the schema-level `hasGender` /
  `hasBirthYear` flags, and the columns the passes read.
- `Loader` is `load_data` after the CSV read. It covers the month-name
  lookup (`list.index` + 1), `str.title` for the day, boolean-mask
  filtering and the two filter steps.
- `Aggregates` holds the counting passes behind `value_counts()` and
  `mode()[0]`. Both are methods with loops, specified by `Count`,
  `IsValueCounts` and `IsMode`. It also holds `is_unique`, `min()` and `max()`.
- `Ordering` holds the order used to break ties between modes. pandas returns
  tied modes sorted, so `mode()[0]` is the least tied value: numeric order
  for numbers, Python's code-point order for strings.
- `Statistics` holds the four passes. Each returns a report instead of
  printing it. Where the original raises, a pass returns a `Result` error:
  `mode()[0]` on an empty table, a popular month missing from
  `months_dict`, `int()` of the NaN minimum of an all-missing birth-year
  column, or the NaN mean of an empty table. The uniform-versus-popular
  print branch of `time_stats` becomes the `monthWasUniform` /
  `weekdayWasUniform` flags.

Three behaviours follow the code closely:

- An empty table is an error in every pass that takes a mode or a mean,
  because that is what the code does (it raises). The model does not
  produce an "unavailable" report for it.
- The day match is exact equality with `day.title()`. It is not a general
  case-insensitive comparison.
- `Birth Year` min/max/mode are taken over the non-missing cells. A present
  column with no non-missing cell is an error.

## Model

| member | source | states |
|---|---|---|
| `Loader.IndexOf` | bikeshare.py:66 | `list.index`: `None` exactly when the value is absent; otherwise a position holding the value with no earlier occurrence |
| `Loader.MonthIndex` | bikeshare.py:65-66 | a month name maps to `Some` exactly when it is one of january..june; the number is in 1..6 and the name sits at list position number - 1 |
| `Loader.MonthIndexIsPosition` | bikeshare.py:65-66 | january maps to 1, february to 2, …, june to 6 |
| `Loader.TitleIdempotent` | bikeshare.py:74 | title-casing twice is the same as title-casing once |
| `Loader.Title` | bikeshare.py:74 | `str.title` on ASCII: a letter is upper-cased after a non-letter (or at the start) and lower-cased after a letter; other characters are unchanged |
| `Loader.DayTitles` | bikeshare.py:74 | `title()` of each accepted lower-case day name is the weekday name `dt.day_name()` produces (monday becomes Monday, and so on) |
| `Loader.Filter` | bikeshare.py:69 | boolean-mask indexing keeps every row satisfying the mask, with its multiplicity (each value's count is its input count if it satisfies the mask, else 0), in original order (a subsequence of the input) |
| `Loader.FilterKeepsAll` | bikeshare.py:63-76 | a filter whose predicate holds of every row returns the input unchanged |
| `Loader.FilterConjunction` | bikeshare.py:69-74 | filtering by one predicate and then another equals filtering once by their conjunction |
| `Loader.MonthFilterCount` | bikeshare.py:69 | the month filter keeps as many rows as the month column holds that month number |
| `Loader.LoadData` | bikeshare.py:41-76 | an unknown month name is an error (the `ValueError` of `list.index`); `all`/`all` returns the table unchanged; otherwise the rows are exactly the input rows selected by month AND weekday, in original order, with the schema flags kept |
| `Loader.LoadDataIdempotent` | bikeshare.py:63-76 | for any accepted month (or `all`), loading an already loaded table again with the same selection changes nothing |
| `Loader.MonthSelectionExact` | bikeshare.py:63-69 | with a month selection and day `all`, a row is kept iff its month equals the month's index, and the kept count equals that month's count in the source |
| `Trips.PairKey` | bikeshare.py:129 | the pair key is the start station, then " and ", then the end station |
| `Aggregates.CountPositive` | bikeshare.py:160 | a value occurs in a column iff its occurrence count is positive |
| `Aggregates.CountAll` | bikeshare.py:79-81 | a value's count equals the column length iff every cell holds it |
| `Aggregates.ValueCounts` | bikeshare.py:160 | `value_counts()` has one key per distinct value of the column, mapped to its number of occurrences |
| `Aggregates.ModeOf` | bikeshare.py:91 | `mode()[0]` of a non-empty column is a value of the column whose count no value exceeds, and the least of the values tied with it |
| `Aggregates.ModeIsMaximal` | bikeshare.py:91 | the mode's count bounds the count of every value, including values absent from the column |
| `Aggregates.ModeIsUnique` | bikeshare.py:91 | under a total order exactly one value satisfies the mode property |
| `Aggregates.IsUnique` | bikeshare.py:79-81 | `is_unique` of a non-empty column holds iff the first value's count is the column length |
| `Aggregates.UniformMode` | bikeshare.py:91-97 | on a uniform column the mode is the column's single value |
| `Aggregates.ModeWithUniformity` | bikeshare.py:91-105 | mode plus `is_unique`: the flag holds iff every cell equals the first, and then the mode is that value |
| `Aggregates.Min` | bikeshare.py:174 | `min()` is a value of the column not above any cell |
| `Aggregates.Max` | bikeshare.py:175 | `max()` is a value of the column not below any cell |
| `Ordering.StrLeIsTotalOrder` | bikeshare.py:100 | Python's code-point string order, used to break ties between station and weekday modes, is a total order |
| `Statistics.TimeStats` | bikeshare.py:83-110 | an empty table is an error; a popular month outside 1..6 is an error that carries that month; otherwise the month, weekday and hour are the modes of their columns, the month name is the `months_dict` entry, each uniform flag holds iff all rows share the value, and then the reported value is that shared value |
| `Statistics.PopularMonthExample` | bikeshare.py:91-97 | months [1,1,3,3] are not uniform, and the 2-2 tie goes to January alone |
| `Statistics.PopularWeekdayExample` | bikeshare.py:100-105 | weekdays [Monday, Monday, Wednesday, Friday] have Monday as their only mode |
| `Statistics.PopularHourExample` | bikeshare.py:108-109 | hours [8, 8, 17, 9] have 8 as their only mode |
| `Statistics.StationStats` | bikeshare.py:115-131 | an empty table is an error; otherwise the start station, end station and start-and-end pair are the modes of their columns, and the pair is the key of some row's (start, end) |
| `Statistics.DirectedPairExample` | bikeshare.py:129-130 | three A-to-B trips and two B-to-A trips make "A and B" the only most popular pair |
| `Statistics.DurationStats` | bikeshare.py:136-149 | an empty table is an error (the NaN mean); otherwise total minutes is the floor of seconds / 60, and mean minutes is the floor of seconds / (60 · rows) |
| `Statistics.MeanWithinTotal` | bikeshare.py:142-148 | the mean in minutes never exceeds the total in minutes |
| `Statistics.DurationExample` | bikeshare.py:142-148 | durations 125 s and 95 s give 3 total minutes and 1 mean minute |
| `Statistics.UserStats` | bikeshare.py:154-181 | user-type counts are the value counts of the column; gender counts are available iff the table has the column, and are then the counts of its non-missing cells; birth-year stats are available iff the column exists, with earliest ≤ commonest ≤ latest, earliest/latest the extremes and commonest the mode of the non-missing years; a present column with no year is an error |

## Left out

- `get_filters` (bikeshare.py:9-38) re-prompts until the input is in a closed vocabulary. This is interactive I/O; the loader takes the month and day strings as given.
- `display_data`, `main` and all printing: paging, the restart loop and output formatting are I/O.
- The `CITY_DATA` mapping and `pd.read_csv` are file I/O. The loader receives the city's table.
- Parsing `Start Time` and deriving `month`, `day_of_week` and `hour` happen inside pandas. A trip carries these fields already derived, and their ranges are subset types (`Month`, `Hour`).
- Trip durations are whole seconds and sums are exact. The floating-point sum and mean, and any rounding they introduce, are not modelled.
- Birth years are integers. The float column pandas produces (because of NaN) and the `int()` truncation of it are not modelled.
- `value_counts()` is modelled as a map from value to count. The descending-count order in which it is printed is not modelled.
- `Loader.Title`: `str.title` is modelled for ASCII letters only; other characters are treated as uncased.
- NaN cells matter only where pandas skips them: gender counts and birth-year statistics. Row-level NaN in other columns is not modelled.
