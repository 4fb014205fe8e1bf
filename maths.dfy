/** MathClass of rref/helpers/math_.py: CEIL, FLOOR and ROUND over exact reals. */
module Maths {
  import opened Results
  import opened Utils

  predicate IsWhole(x: real) { x == x.Floor as real }

  /** Python's `n % 1`: the floored remainder, always in [0, 1). */
  function Mod1(n: real): (r: real)
    ensures 0.0 <= r < 1.0 && IsWhole(n - r)
    ensures r == 0.0 <==> IsWhole(n)
  {
    n - n.Floor as real
  }

  /** FLOOR(n) = n - n % 1: the greatest whole number not above n. */
  function Floor(n: real): (r: real)
    ensures IsWhole(r) && r <= n < r + 1.0
  {
    n - Mod1(n)
  }

  /** CEIL(n) = n + (1 - n % 1): one above FLOOR(n), so strictly above n even when n is whole. */
  function Ceil(n: real): (r: real)
    ensures r == Floor(n) + 1.0 && IsWhole(r)
    ensures n < r <= n + 1.0
  {
    var k := n.Floor;
    assert n + (1.0 - Mod1(n)) == (k + 1) as real;
    assert Floor(n) == k as real;
    n + (1.0 - Mod1(n))
  }

  /** CEIL of a whole number adds one. */
  lemma CeilOfWhole(n: real)
    requires IsWhole(n)
    ensures Ceil(n) == n + 1.0
  {
  }

  /** Python's `10 ** d`, a fraction for negative d. */
  function Pow10(d: int): (r: real)
    ensures r > 0.0
    decreases if d < 0 then -d else d
  {
    if d == 0 then 1.0
    else if d > 0 then 10.0 * Pow10(d - 1)
    else Pow10(d + 1) / 10.0
  }

  /** ROUND's exactness probe: SUM([x % 1 for i in RANGE(d)]). */
  function Probe(x: real, d: int): real
  {
    SumOf(seq(|RangeSeq(d, None, None)|, _ => Mod1(x)))
  }

  /** CEIL(x * f) / f: x moved up to the next multiple of 1/f. */
  function CeilTo(x: real, f: real): real
    requires f > 0.0
  {
    Ceil(x * f) / f
  }

  /**
   * ROUND(x, d): x itself when the probe sum is 0, otherwise
   * CEIL(x * 10^d) / 10^d. A missing d means 0.
   */
  function Round(x: real, digits: Option<int>): (r: real)
    ensures x <= r
    ensures IsWhole(x) ==> r == x
  {
    var d := if digits.None? then 0 else digits.value;
    var factor := Pow10(d);
    ProbeZero(x, d);
    if Probe(x, d) == 0.0 then x
    else
      CeilScaled(x, factor);
      CeilTo(x, factor)
  }

  /** The probe sum is zero exactly when there are no digits to probe or x is whole. */
  lemma ProbeZero(x: real, d: int)
    ensures Probe(x, d) == 0.0 <==> d == 0 || IsWhole(x)
  {
    RangeSingleArgumentLength(d);
    var n := |RangeSeq(d, None, None)|;
    SumOfCopies(n, Mod1(x));
    assert Probe(x, d) == n as real * Mod1(x);
  }

  /** ROUND(x) and ROUND(x, 0) return x unchanged. */
  lemma RoundWithoutDigits(x: real)
    ensures Round(x, None) == x && Round(x, Some(0)) == x
  {
    ProbeZero(x, 0);
  }

  /** ROUND(x, d) returns a whole x unchanged. */
  lemma RoundWhole(x: real, digits: Option<int>)
    requires IsWhole(x)
    ensures Round(x, digits) == x
  {
    ProbeZero(x, if digits.None? then 0 else digits.value);
  }

  /** Dividing by a positive factor keeps the order of two values. */
  lemma DivideKeepsOrder(a: real, b: real, f: real)
    requires f > 0.0
    ensures a < b ==> a / f < b / f
    ensures a <= b ==> a / f <= b / f
  {
    if a < b {
      assert b / f - a / f == (b - a) / f;
    }
  }

  /**
   * r is x moved up to the next multiple of 1/f strictly above it:
   * (floor(x * f) + 1) / f, at most 1/f above x.
   */
  predicate MovedUp(x: real, r: real, f: real)
    requires f > 0.0
  {
    r == (Floor(x * f) + 1.0) / f && x < r <= x + 1.0 / f && r * f == Ceil(x * f)
  }

  /** Scaling by f > 0, taking CEIL and scaling back moves x up to the next multiple of 1/f. */
  lemma CeilScaled(x: real, f: real)
    requires f > 0.0
    ensures MovedUp(x, CeilTo(x, f), f)
  {
    var y := x * f;
    var c := Ceil(y);
    assert CeilTo(x, f) == c / f;
    assert x < c / f by {
      assert y / f == x;
      DivideKeepsOrder(y, c, f);
    }
    assert c / f <= x + 1.0 / f by {
      assert (y + 1.0) / f == x + 1.0 / f;
      DivideKeepsOrder(c, y + 1.0, f);
    }
    assert (c / f) * f == c;
  }

  /** For a non-whole x and d != 0, ROUND takes the CEIL branch. */
  lemma RoundNotWhole(x: real, d: int)
    requires d != 0 && !IsWhole(x)
    ensures Round(x, Some(d)) == CeilTo(x, Pow10(d))
  {
    ProbeZero(x, d);
  }

  /**
   * With d > 0 a non-whole x is moved up to the next multiple of 10^-d strictly
   * above it: (floor(x * 10^d) + 1) / 10^d, at most 10^-d above x.
   */
  lemma RoundMovesUp(x: real, d: int)
    requires d > 0 && !IsWhole(x)
    ensures MovedUp(x, Round(x, Some(d)), Pow10(d))
  {
    RoundNotWhole(x, d);
    CeilScaled(x, Pow10(d));
  }

  /** A value already exact to d digits is still moved up: ROUND(2.5, 1) is 2.6. */
  lemma RoundExactStillMoves()
    ensures Round(2.5, Some(1)) == 2.6
  {
    RoundMovesUp(2.5, 1);
    assert Pow10(1) == 10.0;
    assert Floor(25.0) == 25.0;
  }

  /** ROUND(2.0, 3) is 2.0: the short cut for values that are already whole. */
  lemma RoundExactShortCut()
    ensures Round(2.0, Some(3)) == 2.0
  {
    RoundWhole(2.0, Some(3));
  }

  /** A whole number of tenths stays one when the tenths are counted. */
  lemma WholeTimesTen(x: real)
    requires IsWhole(x)
    ensures IsWhole(x * 10.0)
  {
    assert x * 10.0 == (x.Floor * 10) as real;
  }

  /** Whatever x is, ROUND(x, 1) is a whole number of tenths. */
  lemma RoundToTenths(x: real)
    ensures IsWhole(Round(x, Some(1)) * 10.0)
  {
    if IsWhole(x) {
      RoundWhole(x, Some(1));
      WholeTimesTen(x);
    } else {
      RoundMovesUp(x, 1);
      assert Pow10(1) == 10.0;
    }
  }
}
