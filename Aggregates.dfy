/** Column aggregates shared by the four statistics passes: occurrence
    counts, `value_counts()`, `mode()[0]`, the uniformity test `is_unique`,
    and the minimum and maximum of a numeric column. */
module Aggregates {
  import opened Ordering

  /** Number of occurrences of `v` in the column `xs`. */
  function Count<T(==)>(xs: seq<T>, v: T): (n: nat)
    ensures n <= |xs|
    decreases |xs|
  {
    if |xs| == 0 then 0
    else Count(xs[..|xs| - 1], v) + (if xs[|xs| - 1] == v then 1 else 0)
  }

  /** Counting a column prefix by prefix, one cell at a time. */
  lemma CountPrefixSteps<T>(xs: seq<T>, v: T)
    ensures Count(xs[..0], v) == 0
    ensures forall k :: 0 < k <= |xs| ==>
      Count(xs[..k], v) == Count(xs[..k - 1], v) + (if xs[k - 1] == v then 1 else 0)
  {
    forall k | 0 < k <= |xs|
      ensures Count(xs[..k], v) == Count(xs[..k - 1], v) + (if xs[k - 1] == v then 1 else 0)
    {
      assert xs[..k][..k - 1] == xs[..k - 1];
    }
  }

  /** A value occurs in a column exactly when its count is positive. */
  lemma {:induction false} CountPositive<T>(xs: seq<T>, v: T)
    ensures Count(xs, v) > 0 <==> v in xs
    decreases |xs|
  {
    if |xs| > 0 {
      var init := xs[..|xs| - 1];
      CountPositive(init, v);
      assert xs == init + [xs[|xs| - 1]];
    }
  }

  /** A value accounts for the whole column exactly when every cell holds it. */
  lemma {:induction false} CountAll<T>(xs: seq<T>, v: T)
    ensures Count(xs, v) == |xs| <==> forall i :: 0 <= i < |xs| ==> xs[i] == v
    decreases |xs|
  {
    if |xs| > 0 {
      var init := xs[..|xs| - 1];
      CountAll(init, v);
      assert forall i :: 0 <= i < |init| ==> init[i] == xs[i];
    }
  }

  /** `counts` is the `value_counts()` table of `xs`: one entry per distinct
      value, holding that value's number of occurrences. */
  ghost predicate IsValueCounts<T(!new)>(xs: seq<T>, counts: map<T, nat>)
  {
    (forall v :: v in counts <==> v in xs) &&
    (forall v :: v in counts ==> counts[v] == Count(xs, v))
  }

  /** `m` is `mode()[0]` of `xs`: a value of the column whose count no other
      value exceeds, and the least under `le` among the values tied with it. */
  ghost predicate IsMode<T>(xs: seq<T>, m: T, le: (T, T) -> bool)
  {
    m in xs &&
    (forall i :: 0 <= i < |xs| ==> Count(xs, xs[i]) <= Count(xs, m)) &&
    (forall i :: 0 <= i < |xs| && Count(xs, xs[i]) == Count(xs, m) ==> le(m, xs[i]))
  }

  /** The mode's count bounds the count of every value, present or not. */
  lemma ModeIsMaximal<T>(xs: seq<T>, m: T, le: (T, T) -> bool, v: T)
    requires IsMode(xs, m, le)
    ensures Count(xs, v) <= Count(xs, m)
  {
    CountPositive(xs, v);
    if v in xs {
      var i :| 0 <= i < |xs| && xs[i] == v;
    }
  }

  /** Under a total order the tie-break leaves exactly one mode. */
  lemma ModeIsUnique<T(!new)>(xs: seq<T>, m1: T, m2: T, le: (T, T) -> bool)
    requires TotalOrder(le)
    requires IsMode(xs, m1, le) && IsMode(xs, m2, le)
    ensures m1 == m2
  {
    var i1 :| 0 <= i1 < |xs| && xs[i1] == m1;
    var i2 :| 0 <= i2 < |xs| && xs[i2] == m2;
    assert le(m1, m2) && le(m2, m1);
  }

  /** One counting pass over the column. */
  method ValueCounts<T(==,!new)>(xs: seq<T>) returns (counts: map<T, nat>)
    ensures IsValueCounts(xs, counts)
  {
    counts := map[];
    for i := 0 to |xs|
      invariant forall v :: v in counts <==> v in xs[..i]
      invariant forall v :: v in counts ==> counts[v] == Count(xs[..i], v)
    {
      var x := xs[i];
      assert xs[..i + 1][..i] == xs[..i];
      assert xs[..i + 1] == xs[..i] + [x];
      if x !in counts {
        CountPositive(xs[..i], x);
      }
      var c := if x in counts then counts[x] else 0;
      counts := counts[x := c + 1];
    }
    assert xs[..|xs|] == xs;
  }

  /** `mode()[0]`: counts the column, then scans it keeping the most
      frequent value seen so far, preferring the lesser one on a tie. */
  method ModeOf<T(==,!new)>(xs: seq<T>, le: (T, T) -> bool) returns (m: T)
    requires |xs| > 0
    requires TotalOrder(le)
    ensures IsMode(xs, m, le)
  {
    var counts := ValueCounts(xs);
    m := xs[0];
    for i := 1 to |xs|
      invariant m in xs
      invariant forall j :: 0 <= j < i ==>
        Count(xs, xs[j]) < Count(xs, m) ||
        (Count(xs, xs[j]) == Count(xs, m) && le(m, xs[j]))
    {
      var x := xs[i];
      if counts[x] > counts[m] || (counts[x] == counts[m] && !le(m, x)) {
        m := x;
      }
    }
  }

  /** `is_unique`: every cell of a non-empty column equals the first one,
      that is, the first value's count is the length of the column. */
  function IsUnique<T(==)>(xs: seq<T>): (r: bool)
    requires |xs| > 0
    ensures r <==> Count(xs, xs[0]) == |xs|
  {
    CountAll(xs, xs[0]);
    forall i | 0 <= i < |xs| :: xs[i] == xs[0]
  }

  /** On a uniform column the only mode is its single value. */
  lemma UniformMode<T>(xs: seq<T>, m: T, le: (T, T) -> bool)
    requires |xs| > 0 && IsUnique(xs)
    requires IsMode(xs, m, le)
    ensures m == xs[0]
  {
    CountAll(xs, xs[0]);
  }

  /** `mode()[0]` of a column together with `is_unique` of it: a uniform
      column's mode is its one value. */
  method ModeWithUniformity<T(==,!new)>(xs: seq<T>, le: (T, T) -> bool) returns (m: T, uniform: bool)
    requires |xs| > 0
    requires TotalOrder(le)
    ensures IsMode(xs, m, le)
    ensures uniform <==> forall i :: 0 <= i < |xs| ==> xs[i] == xs[0]
    ensures uniform ==> m == xs[0]
  {
    m := ModeOf(xs, le);
    uniform := IsUnique(xs);
    CountAll(xs, xs[0]);
    if uniform {
      UniformMode(xs, m, le);
    }
  }

  /** `min()` of a non-empty numeric column. */
  function Min(xs: seq<int>): (m: int)
    requires |xs| > 0
    ensures m in xs
    ensures forall i :: 0 <= i < |xs| ==> m <= xs[i]
  {
    if |xs| == 1 then xs[0]
    else
      var rest := Min(xs[1..]);
      if xs[0] <= rest then xs[0] else rest
  }

  /** `max()` of a non-empty numeric column. */
  function Max(xs: seq<int>): (m: int)
    requires |xs| > 0
    ensures m in xs
    ensures forall i :: 0 <= i < |xs| ==> xs[i] <= m
  {
    if |xs| == 1 then xs[0]
    else
      var rest := Max(xs[1..]);
      if xs[0] >= rest then xs[0] else rest
  }
}
