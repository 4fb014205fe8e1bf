/** The iteration helpers of rref/helpers/utils_.py: RANGE, SUM, LEN, ENUM and ABS. */
module Utils {
  import opened Results

  /** The values lo, lo + inc, ... that lie strictly below hi (a positive increment). */
  function Ascending(lo: int, hi: int, inc: int): seq<int>
    requires inc > 0
    decreases hi - lo
  {
    if lo < hi then [lo] + Ascending(lo + inc, hi, inc) else []
  }

  /** The values hi, hi + inc, ... that are still at least lo (a negative increment). */
  function Descending(hi: int, lo: int, inc: int): seq<int>
    requires inc < 0
    decreases hi - lo + 1
  {
    if hi >= lo then [hi] + Descending(hi + inc, lo, inc) else []
  }

  /** Every value lies in [lo, hi]. */
  predicate Between(s: seq<int>, lo: int, hi: int) {
    forall k :: 0 <= k < |s| ==> lo <= s[k] <= hi
  }

  /**
   * What RANGE(start, stop, increment) yields. A missing stop makes the range
   * run from 0 to start, a missing increment is 1; the two endpoints are sorted
   * first, a negative increment counts down from the larger to the smaller one
   * inclusive, and an increment of 0 yields nothing.
   */
  function RangeSeq(start: int, stop: Option<int>, increment: Option<int>): (r: seq<int>)
    ensures increment == Some(0) ==> r == []
    ensures var a, b := (if stop.None? then 0 else start), (if stop.None? then start else stop.value);
      Between(r, Min(a, b), Max(a, b))
  {
    var a := if stop.None? then 0 else start;
    var b := if stop.None? then start else stop.value;
    var inc := increment.GetOr(1);
    var lo, hi := Min(a, b), Max(a, b);
    if inc == 0 then []
    else if inc < 0 then
      DescendingValues(hi, lo, inc);
      Descending(hi, lo, inc)
    else
      AscendingValues(lo, hi, inc);
      Ascending(lo, hi, inc)
  }

  /** RANGE as the source writes it: sort the endpoints, then step a counter in a while loop. */
  method Range(start: int, stop: Option<int>, increment: Option<int>) returns (values: seq<int>)
    ensures values == RangeSeq(start, stop, increment)
  {
    var first, last := start, 0;
    if stop.None? {
      last := first;
      first := 0;
    } else {
      last := stop.value;
    }
    var inc := increment.GetOr(1);
    var lo, hi := Min(first, last), Max(first, last);
    if inc == 0 {
      // the source prints an error message and yields nothing
      values := [];
    } else if inc < 0 {
      values := CountDown(hi, lo, inc);
    } else {
      values := CountUp(lo, hi, inc);
    }
  }

  /** RANGE's loop for a negative increment: from hi down to lo inclusive. */
  method CountDown(hi: int, lo: int, inc: int) returns (values: seq<int>)
    requires inc < 0
    ensures values == Descending(hi, lo, inc)
  {
    values := [];
    var current := hi;
    while current >= lo
      invariant values + Descending(current, lo, inc) == Descending(hi, lo, inc)
      decreases current - lo + 1
    {
      assert (values + [current]) + Descending(current + inc, lo, inc) == values + Descending(current, lo, inc);
      values := values + [current];
      current := current + inc;
    }
  }

  /** RANGE's loop for a positive increment: from lo up to, not including, hi. */
  method CountUp(lo: int, hi: int, inc: int) returns (values: seq<int>)
    requires inc > 0
    ensures values == Ascending(lo, hi, inc)
  {
    values := [];
    var current := lo;
    while current < hi
      invariant values + Ascending(current, hi, inc) == Ascending(lo, hi, inc)
      decreases hi - current
    {
      assert (values + [current]) + Ascending(current + inc, hi, inc) == values + Ascending(current, hi, inc);
      values := values + [current];
      current := current + inc;
    }
  }

  /** With a positive increment the k-th value is lo + k * inc, every value is below hi, and the next one would not be. */
  lemma {:induction false} AscendingValues(lo: int, hi: int, inc: int)
    requires inc > 0
    decreases hi - lo
    ensures var s := Ascending(lo, hi, inc);
      (forall k :: 0 <= k < |s| ==> s[k] == lo + k * inc && lo <= s[k] < hi) && lo + |s| * inc >= hi
  {
    var s := Ascending(lo, hi, inc);
    if lo < hi {
      AscendingValues(lo + inc, hi, inc);
      var t := Ascending(lo + inc, hi, inc);
      assert s == [lo] + t;
      forall k | 0 <= k < |s| ensures s[k] == lo + k * inc && lo <= s[k] < hi {
        if k > 0 {
          assert s[k] == t[k - 1] == lo + inc + (k - 1) * inc;
        }
      }
      assert lo + |s| * inc == lo + inc + |t| * inc;
    }
  }

  /** With a negative increment the k-th value is hi + k * inc, every value is at least lo, and the next one would not be. */
  lemma {:induction false} DescendingValues(hi: int, lo: int, inc: int)
    requires inc < 0
    decreases hi - lo + 1
    ensures var s := Descending(hi, lo, inc);
      (forall k :: 0 <= k < |s| ==> s[k] == hi + k * inc && lo <= s[k] <= hi) && hi + |s| * inc < lo
  {
    var s := Descending(hi, lo, inc);
    if hi >= lo {
      DescendingValues(hi + inc, lo, inc);
      var t := Descending(hi + inc, lo, inc);
      assert s == [hi] + t;
      forall k | 0 <= k < |s| ensures s[k] == hi + k * inc && lo <= s[k] <= hi {
        if k > 0 {
          assert s[k] == t[k - 1] == hi + inc + (k - 1) * inc;
        }
      }
      assert hi + |s| * inc == hi + inc + |t| * inc;
    }
  }

  /** Counting up by one from lo to hi yields hi - lo values (none when hi <= lo). */
  lemma AscendingByOne(lo: int, hi: int)
    ensures var s := Ascending(lo, hi, 1);
      |s| == Max(0, hi - lo) && forall k :: 0 <= k < |s| ==> s[k] == lo + k
  {
    AscendingValues(lo, hi, 1);
    var s := Ascending(lo, hi, 1);
    if |s| > 0 {
      assert s[|s| - 1] < hi;
    }
  }

  /** Counting down by one from hi to lo yields hi - lo + 1 values, ending at lo. */
  lemma DescendingByOne(hi: int, lo: int)
    requires lo <= hi
    ensures var s := Descending(hi, lo, -1);
      |s| == hi - lo + 1 && s[|s| - 1] == lo && forall k :: 0 <= k < |s| ==> s[k] == hi - k
  {
    DescendingValues(hi, lo, -1);
    var s := Descending(hi, lo, -1);
    assert s[0] == hi;
    assert s[|s| - 1] >= lo;
  }

  /** RANGE(n) with n >= 0 yields 0, 1, ..., n - 1. */
  lemma RangeSingleArgument(n: int)
    requires n >= 0
    ensures var s := RangeSeq(n, None, None);
      |s| == n && forall k :: 0 <= k < n ==> s[k] == k
  {
    AscendingByOne(0, n);
  }

  /** RANGE(n) has |n| values whatever the sign of n, because the endpoints 0 and n are sorted. */
  lemma RangeSingleArgumentLength(n: int)
    ensures |RangeSeq(n, None, None)| == if n >= 0 then n else -n
  {
    AscendingByOne(Min(0, n), Max(0, n));
  }

  /** The endpoints are sorted first, so their order does not matter. */
  lemma RangeEndpointsOrderless(a: int, b: int, increment: Option<int>)
    ensures RangeSeq(a, Some(b), increment) == RangeSeq(b, Some(a), increment)
  {
  }

  /** With a positive increment RANGE yields min, min + inc, ... and every value is strictly below max. */
  lemma RangeCountsUp(a: int, b: int, inc: int)
    requires inc > 0
    ensures var s := RangeSeq(a, Some(b), Some(inc));
      (forall k :: 0 <= k < |s| ==> s[k] == Min(a, b) + k * inc && Min(a, b) <= s[k] < Max(a, b)) &&
      Min(a, b) + |s| * inc >= Max(a, b)
  {
    AscendingValues(Min(a, b), Max(a, b), inc);
  }

  /** With a negative increment RANGE counts down from max and every value is at least min. */
  lemma RangeCountsDown(a: int, b: int, inc: int)
    requires inc < 0
    ensures var s := RangeSeq(a, Some(b), Some(inc));
      (forall k :: 0 <= k < |s| ==> s[k] == Max(a, b) + k * inc && Min(a, b) <= s[k] <= Max(a, b)) &&
      Max(a, b) + |s| * inc < Min(a, b)
  {
    DescendingValues(Max(a, b), Min(a, b), inc);
  }

  /** The two examples of RANGE's docstring: RANGE(10, increment=-1) and RANGE(10, 1, -1). */
  lemma RangeDocstringExamples()
    ensures var s := RangeSeq(10, None, Some(-1)); |s| == 11 && s[0] == 10 && s[10] == 0
    ensures var s := RangeSeq(10, Some(1), Some(-1)); |s| == 10 && s[0] == 10 && s[9] == 1
  {
    assert RangeSeq(10, None, Some(-1)) == Descending(10, 0, -1);
    assert RangeSeq(10, Some(1), Some(-1)) == Descending(10, 1, -1);
    DescendingByOne(10, 0);
    DescendingByOne(10, 1);
  }

  /** An increment of 0 yields no values. */
  lemma RangeZeroIncrement(start: int, stop: Option<int>)
    ensures RangeSeq(start, stop, Some(0)) == []
  {
  }

  /** The total of a sequence, accumulated from left to right as SUM does. */
  function SumOf(xs: seq<real>): real
  {
    if xs == [] then 0.0 else SumOf(xs[..|xs| - 1]) + xs[|xs| - 1]
  }

  /** SUM: a running total over the elements. */
  method Sum(xs: seq<real>) returns (total: real)
    ensures total == SumOf(xs)
  {
    total := 0.0;
    var i := 0;
    while i < |xs|
      invariant 0 <= i <= |xs|
      invariant total == SumOf(xs[..i])
    {
      assert xs[..i + 1][..i] == xs[..i];
      total := total + xs[i];
      i := i + 1;
    }
    assert xs[..|xs|] == xs;
  }

  /** The total of a concatenation is the sum of the totals. */
  lemma {:induction false} SumOfAppend(xs: seq<real>, ys: seq<real>)
    ensures SumOf(xs + ys) == SumOf(xs) + SumOf(ys)
  {
    if ys != [] {
      assert (xs + ys)[..|xs + ys| - 1] == xs + ys[..|ys| - 1];
      SumOfAppend(xs, ys[..|ys| - 1]);
    } else {
      assert xs + ys == xs;
    }
  }

  /** Adding up n copies of v gives n * v. */
  lemma {:induction false} SumOfCopies(n: nat, v: real)
    ensures SumOf(seq(n, _ => v)) == n as real * v
  {
    if n > 0 {
      var s := seq(n, _ => v);
      assert s[..n - 1] == seq(n - 1, _ => v);
      SumOfCopies(n - 1, v);
    }
  }

  /** LEN: the integer part of the sum of one 1 per element. */
  function Len<T>(xs: seq<T>): (n: int)
    ensures n == |xs|
  {
    SumOfCopies(|xs|, 1.0);
    SumOf(seq(|xs|, _ => 1.0)).Floor
  }

  /** ENUM(iterable, start, increment): pairs of a stepped counter and each element, in order. */
  method Enum<T>(xs: seq<T>, start: int, increment: int) returns (pairs: seq<(int, T)>)
    ensures |pairs| == |xs|
    ensures forall i :: 0 <= i < |xs| ==> pairs[i] == (start + i * increment, xs[i])
  {
    pairs := [];
    var n := start;
    var i := 0;
    while i < |xs|
      invariant 0 <= i <= |xs| && |pairs| == i
      invariant n == start + i * increment
      invariant forall j :: 0 <= j < i ==> pairs[j] == (start + j * increment, xs[j])
    {
      var tmp := n;
      n := n + increment;
      pairs := pairs + [(tmp, xs[i])];
      i := i + 1;
    }
  }

  /** ABS: the magnitude of n. */
  function Abs(n: real): (r: real)
    ensures r >= 0.0 && (r == n || r == -n)
  {
    if n >= 0.0 then n else n * -1.0
  }
}
