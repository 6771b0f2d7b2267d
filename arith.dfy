/** Small facts of integer arithmetic shared by the puzzle models. */
module Arith {

  /** A non-zero multiple of a positive number is at least that number in size. */
  lemma {:induction false} MultipleSize(d: int, m: int)
    requires m > 0
    ensures d >= 1 ==> d * m >= m
    ensures d <= -1 ==> d * m <= -m
  {
    if d >= 1 {
      assert d * m == (d - 1) * m + m;
    } else if d <= -1 {
      assert d * m == (d + 1) * m - m;
    }
  }

  /** Euclidean division is unique: a quotient and remainder in range are the ones `/` and `%` give. */
  lemma {:induction false} ModUnique(i: int, m: int, q: int, r: int)
    requires m > 0 && 0 <= r < m && i == q * m + r
    ensures i % m == r && i / m == q
  {
    var d := i / m - q;
    assert d * m == r - i % m;
    MultipleSize(d, m);
  }

  /** A number is its quotient times the divisor plus its remainder. */
  lemma {:induction false} DivMod(i: int, m: int)
    requires m > 0
    ensures i == (i / m) * m + i % m && 0 <= i % m < m
  {
  }

  /** Multiplication distributes over a sum on the left. */
  lemma {:induction false} MulAdd(a: int, b: int, m: int)
    ensures (a + b) * m == a * m + b * m
  {
  }

  /** 2 to the power k. */
  function Pow2(k: nat): nat
  {
    if k == 0 then 1 else 2 * Pow2(k - 1)
  }

  // ---------------------------------------------------------------------------
  // math.gcd and math.lcm on non-negative numbers
  // ---------------------------------------------------------------------------

  /** d divides n: n is a multiple of the positive number d. */
  predicate Divides(d: nat, n: nat)
  {
    d > 0 && n % d == 0
  }

  /** A multiple of d written out is divisible by d. */
  lemma {:induction false} MultipleDivides(d: nat, k: nat)
    requires d > 0
    ensures Divides(d, d * k)
  {
    ModUnique(d * k, d, k, 0);
  }

  lemma {:induction false} DividesSum(d: nat, x: nat, y: nat)
    requires Divides(d, x) && Divides(d, y)
    ensures Divides(d, x + y)
  {
    ModUnique(x + y, d, x / d + y / d, 0);
  }

  lemma {:induction false} DividesDifference(d: nat, x: nat, y: nat)
    requires Divides(d, x) && Divides(d, y) && y <= x
    ensures Divides(d, x - y)
  {
    ModUnique(x - y, d, x / d - y / d, 0);
  }

  lemma {:induction false} DividesProduct(d: nat, x: nat, k: nat)
    requires Divides(d, x)
    ensures Divides(d, x * k)
  {
    assert x * k == d * ((x / d) * k);
    MultipleDivides(d, (x / d) * k);
  }

  lemma {:induction false} DividesTransitive(a: nat, b: nat, c: nat)
    requires Divides(a, b) && Divides(b, c)
    ensures Divides(a, c)
  {
    assert c == b * (c / b);
    DividesProduct(a, b, c / b);
  }

  /** math.gcd: Euclid's algorithm. */
  function Gcd(a: nat, b: nat): (g: nat)
    ensures a > 0 || b > 0 ==> g > 0
    decreases b
  {
    if b == 0 then a else Gcd(b, a % b)
  }

  /** Unless both numbers are 0, their gcd is positive and divides both. */
  lemma {:induction false} GcdDivides(a: nat, b: nat)
    requires a > 0 || b > 0
    ensures Divides(Gcd(a, b), a) && Divides(Gcd(a, b), b)
    decreases b
  {
    if b == 0 {
      MultipleDivides(a, 1);
      MultipleDivides(a, 0);
    } else {
      var g, q, r := Gcd(a, b), a / b, a % b;
      GcdDivides(b, r);
      DividesProduct(g, b, q);
      assert a == b * q + r;
      DividesSum(g, b * q, r);
    }
  }

  /** Every common divisor of two numbers divides their gcd. */
  lemma {:induction false} GcdGreatest(a: nat, b: nat, d: nat)
    requires Divides(d, a) && Divides(d, b)
    ensures Divides(d, Gcd(a, b))
    decreases b
  {
    if b != 0 {
      var q, r := a / b, a % b;
      DividesProduct(d, b, q);
      assert r == a - b * q;
      DividesDifference(d, a, b * q);
      GcdGreatest(b, r, d);
    }
  }

  /** Bezout's identity: the gcd is an integer combination of the two numbers. */
  lemma {:induction false} Bezout(a: nat, b: nat) returns (x: int, y: int)
    ensures a * x + b * y == Gcd(a, b)
    decreases b
  {
    if b == 0 {
      x, y := 1, 0;
    } else {
      var q, r := a / b, a % b;
      var x', y' := Bezout(b, r);
      assert b * x' + r * y' == Gcd(a, b);
      assert r * y' == a * y' - b * (q * y') by {
        assert r == a - b * q;
      }
      x, y := y', x' - q * y';
    }
  }

  /** math.lcm of two numbers: 0 when either is 0, else a // gcd(a, b) * b. */
  function Lcm(a: nat, b: nat): nat
  {
    if a == 0 || b == 0 then 0 else a / Gcd(a, b) * b
  }

  /** The lcm of two positive numbers is a positive multiple of both. */
  lemma {:induction false} LcmMultiple(a: nat, b: nat)
    requires a > 0 && b > 0
    ensures Lcm(a, b) > 0 && Divides(a, Lcm(a, b)) && Divides(b, Lcm(a, b))
  {
    var g := Gcd(a, b);
    GcdDivides(a, b);
    assert a == g * (a / g) && b == g * (b / g);
    assert a / g > 0;
    assert Lcm(a, b) == a * (b / g) by {
      calc {
        a / g * b;
        (a / g) * (g * (b / g));
        (g * (a / g)) * (b / g);
        a * (b / g);
      }
    }
    MultipleDivides(a, b / g);
    MultipleDivides(b, a / g);
    MultipleSize(a / g, b);
  }

  /** The lcm times the gcd is the product. */
  lemma {:induction false} LcmTimesGcd(a: nat, b: nat)
    requires a > 0 && b > 0
    ensures Lcm(a, b) * Gcd(a, b) == a * b
  {
    var g := Gcd(a, b);
    GcdDivides(a, b);
    assert a == (a / g) * g;
    calc {
      Lcm(a, b) * g;
      (a / g) * b * g;
      ((a / g) * g) * b;
      a * b;
    }
  }

  /** A Bezout combination g scaled by a common multiple m of a and b is a multiple of a * b. */
  lemma {:induction false} ScaledCombination(a: int, b: int, x: int, y: int, i: int, j: int, m: int, g: int)
    requires m == i * a && m == j * b && a * x + b * y == g
    ensures g * m == a * b * (j * x + i * y)
  {
    calc {
      g * m;
      (a * x + b * y) * m;
      a * x * m + b * y * m;
      a * x * (j * b) + b * y * (i * a);
      a * b * (j * x + i * y);
    }
  }

  /** Replacing the product p by l * g in g * m == p * t. */
  lemma {:induction false} Rescale(m: int, g: int, p: int, t: int, l: int)
    requires g * m == p * t && l * g == p
    ensures m * g == l * t * g
  {
    calc {
      m * g;
      g * m;
      p * t;
      (l * g) * t;
      l * t * g;
    }
  }

  lemma {:induction false} CancelFactor(m: int, l: int, t: int, g: int)
    requires g > 0 && m * g == l * t * g
    ensures m == l * t
  {
    assert (m - l * t) * g == 0;
  }

  /** The lcm of two positive numbers divides each of their common multiples. */
  lemma {:induction false} LcmLeast(a: nat, b: nat, m: nat)
    requires a > 0 && b > 0 && Divides(a, m) && Divides(b, m)
    ensures Divides(Lcm(a, b), m)
  {
    var g, l := Gcd(a, b), Lcm(a, b);
    LcmMultiple(a, b);
    LcmTimesGcd(a, b);
    var x, y := Bezout(a, b);
    var i, j := m / a, m / b;
    DivMod(m, a);
    DivMod(m, b);
    var t := j * x + i * y;
    ScaledCombination(a, b, x, y, i, j, m, g);
    Rescale(m, g, a * b, t, l);
    CancelFactor(m, l, t, g);
    ModUnique(m, l, t, 0);
  }

  /** math.lcm(*xs): 1 for no arguments, else the lcm taken left to right. */
  function LcmAll(xs: seq<nat>): nat
  {
    if xs == [] then 1 else Lcm(LcmAll(xs[..|xs| - 1]), xs[|xs| - 1])
  }

  /** The lcm of positive numbers is a positive multiple of each of them. */
  lemma {:induction false} LcmAllMultiple(xs: seq<nat>)
    requires forall i | 0 <= i < |xs| :: xs[i] > 0
    ensures LcmAll(xs) > 0 && forall i | 0 <= i < |xs| :: Divides(xs[i], LcmAll(xs))
  {
    if xs != [] {
      var init, last := xs[..|xs| - 1], xs[|xs| - 1];
      LcmAllMultiple(init);
      LcmMultiple(LcmAll(init), last);
      forall i | 0 <= i < |xs|
        ensures Divides(xs[i], LcmAll(xs))
      {
        if i < |init| {
          assert xs[i] == init[i];
          DividesTransitive(xs[i], LcmAll(init), LcmAll(xs));
        }
      }
    }
  }

  /** The lcm of positive numbers divides each of their common multiples. */
  lemma {:induction false} LcmAllLeast(xs: seq<nat>, m: nat)
    requires forall i | 0 <= i < |xs| :: xs[i] > 0 && Divides(xs[i], m)
    ensures Divides(LcmAll(xs), m)
  {
    if xs == [] {
      MultipleDivides(1, m);
    } else {
      var init, last := xs[..|xs| - 1], xs[|xs| - 1];
      assert forall i | 0 <= i < |init| :: init[i] == xs[i];
      LcmAllLeast(init, m);
      LcmAllMultiple(init);
      LcmLeast(LcmAll(init), last, m);
    }
  }
}
