/**
 * Rounding of non-negative reals to IEEE 754 binary64 values, to nearest with ties to even, gradual underflow
 * included. Values of 2^1024 and more stand for the overflow to infinity.
 */
module Binary64 {
  import opened Powers

  const TWO_52: real := 4503599627370496.0
  const TWO_53: real := 9007199254740992.0

  /** The integer nearest to x, the even one of two. */
  function NearestInteger(x: real): (n: int)
    ensures -0.5 <= n as real - x <= 0.5
    ensures n as real - x == 0.5 || n as real - x == -0.5 ==> n % 2 == 0
  {
    var n := x.Floor;
    var rest := x - n as real;
    if rest < 0.5 || (rest == 0.5 && n % 2 == 0) then n else n + 1
  }

  /** Below 2^53 the unit in the last place is found by doubling, at most `doublings` times, until 53 bits are
      used; at 1074 doublings the unit is that of the subnormal numbers. */
  function Small(x: real, doublings: nat): real
    requires 0.0 <= x < TWO_53
    decreases doublings
  {
    if x >= TWO_52 || doublings == 0 then NearestInteger(x) as real else Small(2.0 * x, doublings - 1) / 2.0
  }

  function Nearest(x: real): real
    requires x >= 0.0
    decreases x.Floor
  {
    if x < TWO_53 then Small(x, 1074) else 2.0 * Nearest(x / 2.0)
  }

  predicate Overflows(y: real) {
    y >= Power2(1024) as real
  }

  /** Integers up to 2^53 are exact. */
  lemma {:induction false} SmallInteger(n: nat, doublings: nat)
    requires n as real < TWO_53
    ensures Small(n as real, doublings) == n as real
    decreases doublings
  {
    if (n as real) < TWO_52 && doublings > 0 {
      assert (2 * n) as real == 2.0 * n as real;
      SmallInteger(2 * n, doublings - 1);
    }
  }

  lemma IntegerExact(n: nat)
    requires n as real < TWO_53
    ensures Nearest(n as real) == n as real
  {
    SmallInteger(n, 1074);
  }

  /** So are multiples of 2^-j which come to such integers. */
  lemma {:induction false} SmallDyadic(x: real, m: nat, j: nat, doublings: nat)
    requires 0.0 <= x < TWO_53 && m as real < TWO_53 && j <= doublings
    requires x * Power2(j) as real == m as real
    ensures Small(x, doublings) == x
    decreases j
  {
    if j == 0 {
      assert x == m as real;
      SmallInteger(m, doublings);
    } else {
      var p := Power2(j - 1) as real;
      Regroup(x, p);
      assert Power2(j) as real == 2.0 * p && p >= 1.0;
      Product(2.0 * x, p - 1.0);
      assert 2.0 * x * p == 2.0 * x * (p - 1.0) + 2.0 * x;
      SmallDyadic(2.0 * x, m, j - 1, doublings - 1);
    }
  }

  lemma DyadicExact(x: real, m: nat, j: nat)
    requires 0.0 <= x < TWO_53 && m as real < TWO_53 && j <= 1074 && x * Power2(j) as real == m as real
    ensures Nearest(x) == x
  {
    SmallDyadic(x, m, j, 1074);
  }

  /** Where k doublings reach 2^52, and are allowed, the result is x rounded after k binary places. */
  lemma {:induction false} SmallAt(x: real, doublings: nat, k: nat, y: real)
    requires 0.0 <= x < TWO_53 && k <= doublings
    requires k > 0 ==> x < TWO_52
    requires y == x * Power2(k) as real && TWO_52 <= y < TWO_53
    ensures Small(x, doublings) == NearestInteger(y) as real / Power2(k) as real
    decreases k
  {
    hide NearestInteger;
    if k == 0 {
      assert y == x;
    } else {
      var p := Power2(k - 1);
      Regroup(x, p as real);
      assert Power2(k) as real == 2.0 * p as real;
      StillSmall(2.0 * x, k - 1, y);
      SmallAt(2.0 * x, doublings - 1, k - 1, y);
      Halve(NearestInteger(y) as real, p as real);
    }
  }

  lemma StillSmall(x: real, k: nat, y: real)
    requires y == x * Power2(k) as real && 0.0 <= x && y < TWO_53
    ensures x < TWO_53 && (k > 0 ==> x < TWO_52)
  {
    var p := Power2(k) as real;
    assert p >= 1.0 && (k > 0 ==> p >= 2.0);
    Product(x, p - 1.0);
    assert x * p == x * (p - 1.0) + x;
    if k > 0 {
      Product(x, p - 2.0);
      assert x * p == x * (p - 2.0) + 2.0 * x;
    }
  }

  lemma Product(a: real, b: real)
    requires a >= 0.0 && b >= 0.0
    ensures a * b >= 0.0
  {
  }

  lemma Regroup(x: real, p: real)
    ensures x * (2.0 * p) == 2.0 * x * p
  {
  }

  lemma Halve(a: real, p: real)
    requires p > 0.0
    ensures a / p / 2.0 == a / (2.0 * p)
  {
    var q := a / p;
    assert q * p == a;
    assert (q / 2.0) * (2.0 * p) == a;
  }

  /** The relative error is at most 2^-53, if x is large enough to be doubled up to 2^52. */
  lemma {:induction false} SmallError(x: real, doublings: nat, k: nat)
    requires 0.0 <= x < TWO_53 && k <= doublings && TWO_52 <= x * Power2(k) as real
    ensures -x <= TWO_53 * (Small(x, doublings) - x) <= x
    decreases k
  {
    if x < TWO_52 {
      assert k > 0;
      var p := Power2(k - 1);
      Regroup(x, p as real);
      assert Power2(k) as real == 2.0 * p as real;
      SmallError(2.0 * x, doublings - 1, k - 1);
    } else {
      hide Power2;
    }
  }

  lemma LargePower()
    ensures Power2(82) == 4835703278458516698824704
  {
    assert Power2(1) == 2 && Power2(5) == 32;
    hide Power2;
    PowerDouble(5, 32);
    PowerDouble(10, 1024);
    PowerDouble(20, 1048576);
    Power2Sum(40, 1);
    assert Power2(41) == 2199023255552;
    PowerDouble(41, 2199023255552);
  }

  lemma {:induction false} RelativeError(x: real)
    requires 0.000000001 <= x
    ensures -x <= TWO_53 * (Nearest(x) - x) <= x
    decreases x.Floor
  {
    if x < TWO_53 {
      LargePower();
      SmallError(x, 1074, 82);
    } else {
      RelativeError(x / 2.0);
    }
  }

  lemma BelowOverflow()
    ensures Power2(1024) > 64
  {
    assert Power2(7) == 128;
    hide Power2;
    Power2Sum(1017, 7);
  }

  /** The value of one rounding, from its scaled argument and the integer next to that. */
  lemma NearestAt(x: real, k: nat, p: real, y: real, m: int)
    requires 0.0 <= x < TWO_52 && k <= 1074 && p == Power2(k) as real && y == x * p
    requires TWO_52 <= y < TWO_53 && -0.5 < y - m as real < 0.5
    ensures Nearest(x) == m as real / p
  {
    IsNearest(y, m);
    hide Small, Power2, NearestInteger;
    SmallAt(x, 1074, k, y);
  }

  lemma IsNearest(y: real, m: int)
    requires -0.5 < y - m as real < 0.5
    ensures NearestInteger(y) == m
  {
  }
}
