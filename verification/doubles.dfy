/** Products and quotients of natural numbers as JavaScript numbers compute
    them: the exact value rounded to 53 significant bits, ties to even. */
module Doubles {
  import opened MerkleTree

  const TWO_TO_53: nat := 0x20_0000_0000_0000

  /** a / b to the nearest integer, a tie to the even one. */
  function Nearest(a: nat, b: nat): nat
    requires b > 0
  {
    var q := a / b;
    var r := a % b;
    if 2 * r > b || (2 * r == b && q % 2 == 1) then q + 1 else q
  }

  /** The largest power of two by which a / b can be multiplied within 53 bits. */
  function Scale(a: nat, b: nat): (p: nat)
    requires b > 0
    ensures p >= 1
    decreases b * TWO_TO_53 - a
  {
    if a == 0 || 2 * a >= b * TWO_TO_53 then 1 else 2 * Scale(2 * a, b)
  }

  /** The spacing of the numbers around a / b when that has more than 53 bits. */
  function Granule(a: nat, b: nat): (g: nat)
    requires b > 0
    ensures g >= 1
    decreases a - b
  {
    if a < b * TWO_TO_53 then 1 else 2 * Granule(a, 2 * b)
  }

  /** The integer part of a / b rounded to a double. */
  function FloorOfDouble(a: nat, b: nat): nat
    requires b > 0
  {
    if a < b * TWO_TO_53 then
      var p := Scale(a, b);
      Nearest(a * p, b) / p
    else
      var g := Granule(a, b);
      Nearest(a, b * g) * g
  }

  /** The product of two integers; as a double it is an integer again. */
  function Product(a: nat, b: nat): nat {
    FloorOfDouble(a * b, 1)
  }

  /** Nothing is nearer, and a tie goes to the even neighbour. */
  lemma NearestIsClosest(a: nat, b: nat, m: nat)
    requires b > 0
    ensures var n := Nearest(a, b);
            && Distance(a, b * n) <= Distance(a, b * m)
            && (n != m && Distance(a, b * n) == Distance(a, b * m) ==> n % 2 == 0)
  {
    var q := a / b;
    var n := Nearest(a, b);
    assert a == b * q + a % b;
    Distribute(b, q, 1);
    if m < q {
      Monotone(b, m + 1, q);
      Distribute(b, m, 1);
    } else if m > q + 1 {
      Monotone(b, q + 2, m);
      Distribute(b, q, 2);
    }
  }

  function Distance(a: int, b: int): nat {
    if a < b then b - a else a - b
  }

  /** The scale fills the 53 bits and no more. */
  lemma {:induction false} ScaleFills(a: nat, b: nat)
    requires a > 0 && b > 0 && a < b * TWO_TO_53
    ensures a * Scale(a, b) < b * TWO_TO_53 <= 2 * (a * Scale(a, b))
    decreases b * TWO_TO_53 - a
  {
    if 2 * a < b * TWO_TO_53 {
      ScaleFills(2 * a, b);
      assert a * (2 * Scale(2 * a, b)) == 2 * a * Scale(2 * a, b);
    }
  }

  lemma {:induction false} ScaleAtLeast(a: nat, b: nat, k: nat)
    requires a > 0 && b > 0 && a * Pow2(k) < b * TWO_TO_53
    ensures Scale(a, b) >= Pow2(k)
    ensures k > 0 ==> Scale(a, b) % 2 == 0
    decreases k
  {
    if k > 0 {
      assert a * Pow2(k) == 2 * a * Pow2(k - 1);
      assert 2 * a <= 2 * a * Pow2(k - 1);
      ScaleAtLeast(2 * a, b, k - 1);
    }
  }

  /** An integer below 2^53 is its own double. */
  lemma SmallIntegerIsExact(x: nat)
    requires x < TWO_TO_53
    ensures FloorOfDouble(x, 1) == x
  {
    var p := Scale(x, 1);
    DivideBack(x, p);
  }

  lemma DivideBack(x: nat, p: nat)
    requires p > 0
    ensures x * p / p == x
  {
    QuotientIs(x * p, p, x, 0);
  }

  lemma {:induction false} GranuleIsSmall(a: nat, b: nat)
    requires b > 0
    requires a >= b
    ensures b * Granule(a, b) <= a
    decreases a - b
  {
    if a >= b * TWO_TO_53 {
      GranuleIsSmall(a, 2 * b);
      assert b * (2 * Granule(a, 2 * b)) == 2 * b * Granule(a, 2 * b);
    }
  }

  /** Rounding an integer at most doubles it. */
  lemma RoundedIsBounded(x: nat)
    ensures FloorOfDouble(x, 1) <= 2 * x
  {
    if x < TWO_TO_53 {
      SmallIntegerIsExact(x);
    } else {
      var g := Granule(x, 1);
      GranuleIsSmall(x, 1);
      NearestTimes(x, g);
    }
  }

  lemma NearestTimes(x: nat, g: nat)
    requires g > 0
    ensures Nearest(x, g) * g <= x + g
  {
    var q := x / g;
    assert x == q * g + x % g;
    assert (q + 1) * g == q * g + g;
  }

  lemma DivDiv(z: nat, b: nat, p: nat)
    requires b > 0 && p > 0
    ensures b * p > 0 && z / b / p == z / (b * p)
  {
    var q := z / b;
    var n := q / p;
    var r := z % b;
    var t := q % p;
    assert z == b * q + r;
    assert q == p * n + t;
    assert b * q == b * p * n + b * t by {
      Distribute(b, p * n, t);
      assert b * (p * n) == b * p * n;
    }
    assert b * t + r < b * p by {
      assert b * t <= b * (p - 1) by { Monotone(b, t, p - 1); }
      Distribute(b, p - 1, 1);
    }
    assert 0 <= b * t;
    QuotientIs(z, b * p, n, b * t + r);
  }

  lemma Distribute(a: int, b: int, c: int)
    ensures a * (b + c) == a * b + a * c
  {
  }

  lemma Monotone(a: nat, b: int, c: int)
    requires b <= c
    ensures a * b <= a * c
  {
  }

  lemma QuotientIs(z: nat, m: nat, n: nat, r: nat)
    requires m > 0 && z == m * n + r && r < m
    ensures z / m == n
  {
    var d := z / m;
    assert z == m * d + z % m;
    if d < n {
      Monotone(m, d + 1, n);
      Distribute(m, d, 1);
    } else if n < d {
      Monotone(m, n + 1, d);
      Distribute(m, n, 1);
    }
  }

  /** With an even scale no tie matters: the result is that of rounding half up. */
  lemma QuotientInClosedForm(a: nat, half: nat)
    requires half > 0
    requires 2 * a < 2 * half * TWO_TO_53
    ensures var p := Scale(a, 2 * half);
            FloorOfDouble(a, 2 * half) == (a * p + half) / (2 * half * p)
  {
    var b := 2 * half;
    var p := Scale(a, b);
    if a == 0 {
      QuotientIs(half, b, 0, half);
    } else {
      assert a * Pow2(1) == 2 * a;
      ScaleAtLeast(a, b, 1);
      var z := a * p;
      NearestIsHalfUp(z, half, p);
      DivDiv(z + half, b, p);
    }
  }

  lemma NearestIsHalfUp(z: nat, half: nat, p: nat)
    requires half > 0 && p > 0 && p % 2 == 0
    ensures Nearest(z, 2 * half) / p == (z + half) / (2 * half) / p
  {
    var b := 2 * half;
    var q := z / b;
    var r := z % b;
    assert z == b * q + r;
    if r < half {
      QuotientIs(z + half, b, q, r + half);
    } else {
      assert b * (q + 1) == b * q + b;
      QuotientIs(z + half, b, q + 1, r - half);
      if r == half && q % 2 == 0 {
        SameHalf(q, p);
      }
    }
  }

  /** Stepping from an even number to the next one crosses no multiple of an even number. */
  lemma SameHalf(q: nat, p: nat)
    requires p > 0 && p % 2 == 0 && q % 2 == 0
    ensures (q + 1) / p == q / p
  {
    var half := HalfOf(p);
    var n, r := q / p, q % p;
    assert q == p * n + r;
    EvenRemainder(q, p, half, n, r);
    QuotientIs(q + 1, p, n, r + 1);
  }

  lemma HalfOf(p: nat) returns (half: nat)
    requires p % 2 == 0
    ensures p == 2 * half
  {
    half := p / 2;
  }

  lemma EvenRemainder(q: nat, p: nat, h: nat, n: nat, r: nat)
    requires p == 2 * h && q % 2 == 0
    requires q == p * n + r && r < p
    ensures r + 1 < p
  {
    var pairs := h * n;
    assert p * n == 2 * pairs;
    assert q == 2 * pairs + r;
  }
}
