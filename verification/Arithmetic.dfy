/** Number theory shared by the decimal model: powers, decimal digit counts, bit lengths,
    Euclid's algorithm with Bezout coefficients, and the divisibility facts that decide when a
    rational has a terminating decimal expansion. */
module Arithmetic {

  function Abs(x: int): (r: nat)
    ensures r == x || r == -x
  {
    if x < 0 then -x else x
  }

  function Min(x: int, y: int): (r: int)
    ensures r <= x && r <= y && (r == x || r == y)
  {
    if x < y then x else y
  }

  function Max(x: int, y: int): (r: int)
    ensures r >= x && r >= y && (r == x || r == y)
  {
    if x < y then y else x
  }

  // ---------------------------------------------------------------- powers

  function Pow(b: nat, e: nat): (r: nat)
    ensures b > 0 ==> r > 0
    decreases e
  {
    if e == 0 then 1 else b * Pow(b, e - 1)
  }

  lemma {:induction false} PowAdd(b: nat, m: nat, n: nat)
    ensures Pow(b, m + n) == Pow(b, m) * Pow(b, n)
    decreases m
  {
    if m == 0 {
    } else {
      PowAdd(b, m - 1, n);
      MulAssoc(b, Pow(b, m - 1), Pow(b, n));
    }
  }

  lemma {:induction false} PowMonotone(b: nat, m: nat, n: nat)
    requires b > 0 && m <= n
    ensures Pow(b, m) <= Pow(b, n)
    decreases n
  {
    if m < n {
      PowMonotone(b, m, n - 1);
      MulMono(1, b, Pow(b, n - 1));
    }
  }

  lemma {:induction false} PowBaseMonotone(a: nat, b: nat, e: nat)
    requires a <= b
    ensures Pow(a, e) <= Pow(b, e)
    decreases e
  {
    if e > 0 {
      PowBaseMonotone(a, b, e - 1);
      MulMono(a, b, Pow(a, e - 1));
      MulMono(Pow(a, e - 1), Pow(b, e - 1), b);
    }
  }

  lemma {:induction false} PowOfProduct(a: nat, b: nat, e: nat)
    ensures Pow(a * b, e) == Pow(a, e) * Pow(b, e)
    decreases e
  {
    if e > 0 {
      PowOfProduct(a, b, e - 1);
      var x, y := Pow(a, e - 1), Pow(b, e - 1);
      MulShuffle(a, b, x, y);
    }
  }

  lemma MulAssoc(a: int, b: int, c: int)
    ensures (a * b) * c == a * (b * c)
  {
  }

  lemma MulShuffle(a: int, b: int, x: int, y: int)
    ensures (a * b) * (x * y) == (a * x) * (b * y)
  {
    MulAssoc(a, b, x * y);
    MulAssoc(b, x, y);
    MulAssoc(x, b, y);
    MulAssoc(a, x, b * y);
  }

  lemma MulMono(a: int, b: int, c: int)
    requires a <= b && 0 <= c
    ensures a * c <= b * c && c * a <= c * b
  {
  }

  lemma MulCancel(a: int, b: int, c: int)
    requires c > 0 && a * c == b * c
    ensures a == b
  {
    if a < b { MulMono(a + 1, b, c); }
    if b < a { MulMono(b + 1, a, c); }
  }

  lemma MulCancelLe(a: int, b: int, c: int)
    requires c > 0 && a * c <= b * c
    ensures a <= b
  {
    if b < a { MulMono(b + 1, a, c); }
  }

  /** A remainder is unique. */
  lemma DivModUnique(n: int, d: int, q: int, r: int)
    requires d > 0 && 0 <= r < d && n == q * d + r
    ensures n / d == q && n % d == r
  {
    var q', r' := n / d, n % d;
    assert n == q' * d + r';
    if q' < q { MulMono(q' + 1, q, d); }
    if q < q' { MulMono(q + 1, q', d); }
  }

  // ---------------------------------------------------------- digit counts

  /** The number of base-10 digits, counting zero as one digit. */
  function DigitCount(n: nat): (r: nat)
    ensures r >= 1
  {
    if n < 10 then 1 else 1 + DigitCount(n / 10)
  }

  lemma {:induction false} DigitCountBounds(n: nat)
    ensures n < Pow(10, DigitCount(n))
    ensures n > 0 ==> Pow(10, DigitCount(n) - 1) <= n
  {
    if n < 10 {
      assert Pow(10, 1) == 10 * Pow(10, 0);
    } else {
      DigitCountBounds(n / 10);
      var k := DigitCount(n / 10);
      assert Pow(10, k + 1) == 10 * Pow(10, k);
      assert Pow(10, k) == 10 * Pow(10, k - 1);
    }
  }

  lemma DigitCountAtMost(n: nat, k: nat)
    requires k >= 1
    ensures DigitCount(n) <= k <==> n < Pow(10, k)
  {
    DigitCountBounds(n);
    if DigitCount(n) <= k {
      PowMonotone(10, DigitCount(n), k);
    } else {
      PowMonotone(10, k, DigitCount(n) - 1);
    }
  }

  lemma {:induction false} DigitCountShift(c: nat, k: nat)
    requires c > 0
    ensures c * Pow(10, k) > 0
    ensures DigitCount(c * Pow(10, k)) == DigitCount(c) + k
    decreases k
  {
    if k == 0 {
      assert Pow(10, 0) == 1;
    } else {
      DigitCountShift(c, k - 1);
      var p := c * Pow(10, k - 1);
      assert c * Pow(10, k) == 10 * p by {
        assert Pow(10, k) == 10 * Pow(10, k - 1);
      }
      assert (10 * p) / 10 == p;
    }
  }

  function BitLength(n: nat): (r: nat)
  {
    if n == 0 then 0 else 1 + BitLength(n / 2)
  }

  lemma {:induction false} BitLengthBounds(n: nat)
    ensures n < Pow(2, BitLength(n))
    ensures n > 0 ==> BitLength(n) >= 1 && Pow(2, BitLength(n) - 1) <= n
  {
    if n > 0 {
      BitLengthBounds(n / 2);
      var k := BitLength(n / 2);
      assert Pow(2, k + 1) == 2 * Pow(2, k);
      if n / 2 > 0 {
        assert Pow(2, k) == 2 * Pow(2, k - 1);
      } else {
        assert k == 0;
      }
    }
  }

  /** Anything of more than `4 * k + 1` bits has more than `k` decimal digits. */
  lemma BitLengthForcesDigits(n: nat, k: nat)
    requires BitLength(n) > 4 * k + 1
    ensures DigitCount(n) >= k + 1
  {
    assert n > 0;
    hide BitLength, DigitCount, Pow;
    BitLengthBounds(n);
    if k > 0 && DigitCount(n) <= k {
      DigitCountAtMost(n, k);
      PowMonotone(2, 4 * k, BitLength(n) - 1);
      SixteenPow(k);
      PowBaseMonotone(10, 16, k);
      assert false;
    }
  }

  lemma {:induction false} SixteenPow(k: nat)
    ensures Pow(2, 4 * k) == Pow(16, k)
  {
    if k > 0 {
      SixteenPow(k - 1);
      PowAdd(2, 4, 4 * (k - 1));
      assert Pow(2, 4) == 16 by {
        assert Pow(2, 1) == 2 * Pow(2, 0);
        assert Pow(2, 2) == 2 * Pow(2, 1);
        assert Pow(2, 3) == 2 * Pow(2, 2);
        assert Pow(2, 4) == 2 * Pow(2, 3);
      }
    }
  }

  // ---------------------------------------------------- divisibility, gcd

  /** `d` divides `n`; stated with a remainder so that it can be decided. */
  predicate Divides(d: int, n: int)
    requires d > 0
  {
    n % d == 0
  }

  lemma DividesQuotient(d: int, n: int) returns (q: int)
    requires d > 0 && Divides(d, n)
    ensures n == d * q && q == n / d
  {
    q := n / d;
  }

  lemma DividesProduct(d: int, q: int)
    requires d > 0
    ensures Divides(d, d * q) && Divides(d, q * d) && (q * d) / d == q
  {
    DivModUnique(d * q, d, q, 0);
  }

  lemma DividesAtMost(d: int, n: int)
    requires d > 0 && n > 0 && Divides(d, n)
    ensures d <= n
  {
    var q := DividesQuotient(d, n);
    if q <= 0 { MulMono(q, 0, d); }
    MulMono(1, q, d);
  }

  function Gcd(a: nat, b: nat): (g: nat)
    requires a > 0 || b > 0
    ensures g > 0
    decreases b
  {
    if b == 0 then a else Gcd(b, a % b)
  }

  /** Euclid's algorithm returns a common divisor that is an integer combination of its inputs. */
  lemma {:induction false} GcdBezout(a: nat, b: nat) returns (x: int, y: int)
    requires a > 0 || b > 0
    ensures Divides(Gcd(a, b), a) && Divides(Gcd(a, b), b)
    ensures x * a + y * b == Gcd(a, b)
    decreases b
  {
    if b == 0 {
      x, y := 1, 0;
      DividesProduct(a, 1);
      DividesProduct(a, 0);
    } else {
      var u, v := GcdBezout(b, a % b);
      var g, q, r := Gcd(b, a % b), a / b, a % b;
      x, y := v, u - v * q;
      assert a == q * b + r;
      BezoutStep(a, b, q, r, u, v);
      var m := DividesQuotient(g, b);
      var n := DividesQuotient(g, r);
      assert a == g * (m * q + n) by { CombineMultiples(g, m, n, q); }
      DividesProduct(g, m * q + n);
    }
  }

  lemma BezoutStep(a: int, b: int, q: int, r: int, u: int, v: int)
    requires a == q * b + r
    ensures v * a + (u - v * q) * b == u * b + v * r
  {
    assert v * a == v * (q * b) + v * r;
    MulAssoc(v, q, b);
  }

  lemma CombineMultiples(g: int, m: int, n: int, q: int)
    ensures q * (g * m) + g * n == g * (m * q + n)
  {
    assert q * (g * m) == g * (m * q) by { MulAssoc(g, m, q); }
  }

  predicate Coprime(a: nat, b: nat)
    requires a > 0 || b > 0
  {
    Gcd(a, b) == 1
  }

  /** Gauss: a divisor of a product that is coprime to one factor divides the other. */
  lemma CoprimeDivides(a: nat, b: int, m: int)
    requires a > 0 && Coprime(Abs(b), a) && Divides(a, b * m)
    ensures Divides(a, m)
  {
    var x, y := GcdBezout(Abs(b), a);
    var k := DividesQuotient(a, b * m);
    var s := if b < 0 then -x else x;
    assert s * b == x * Abs(b);
    GaussStep(a, b, m, s, y, k);
    DividesProduct(a, s * k + y * m);
  }

  lemma GaussStep(a: int, b: int, m: int, s: int, y: int, k: int)
    requires s * b + y * a == 1 && b * m == a * k
    ensures m == a * (s * k + y * m)
  {
    assert m == (s * b + y * a) * m;
    assert (s * b) * m == s * (a * k) by { MulAssoc(s, b, m); }
    assert (y * a) * m == a * (y * m) by { MulAssoc(y, a, m); MulAssoc(a, y, m); }
    assert s * (a * k) == a * (s * k) by { MulAssoc(s, a, k); MulAssoc(a, s, k); }
  }

  /** A combination equal to one proves coprimality. */
  lemma BezoutCoprime(a: nat, b: nat, x: int, y: int)
    requires a > 0 || b > 0
    requires x * a + y * b == 1
    ensures Coprime(a, b)
  {
    var g := Gcd(a, b);
    var _, _ := GcdBezout(a, b);
    var p := DividesQuotient(g, a);
    var q := DividesQuotient(g, b);
    assert x * a == g * (x * p) by { MulAssoc(x, g, p); MulAssoc(g, x, p); }
    assert y * b == g * (y * q) by { MulAssoc(y, g, q); MulAssoc(g, y, q); }
    var t := x * p + y * q;
    assert g * t == 1;
    if g > 1 {
      if t <= 0 { MulMono(t, 0, g); } else { MulMono(1, t, g); }
      assert false;
    }
  }

  /** A divisor of a power of ten that is divisible by neither two nor five is one. */
  lemma {:induction false} CoprimeToTenPower(d: nat, k: nat)
    requires d > 0 && d % 2 != 0 && d % 5 != 0
    requires Divides(d, Pow(10, k))
    ensures d == 1
    decreases k
  {
    if k == 0 {
      DividesAtMost(d, 1);
    } else {
      var x, y := CoprimeToTen(d);
      BezoutCoprime(10, d, x, y);
      assert Pow(10, k) == 10 * Pow(10, k - 1);
      CoprimeDivides(d, 10, Pow(10, k - 1));
      CoprimeToTenPower(d, k - 1);
    }
  }

  lemma LastDigit(d: nat, q: nat, r: nat)
    requires d == 10 * q + r && r < 10 && d % 2 != 0 && d % 5 != 0
    ensures r == 1 || r == 3 || r == 7 || r == 9
  {
    DivModUnique(d, 2, 5 * q + r / 2, r % 2);
    DivModUnique(d, 5, 2 * q + r / 5, r % 5);
  }

  lemma CoprimeToTen(d: nat) returns (x: int, y: int)
    requires d % 2 != 0 && d % 5 != 0
    ensures x * 10 + y * d == 1
  {
    var q, r := d / 10, d % 10;
    LastDigit(d, q, r);
    if r == 1 {
      x, y := -q, 1;
    } else if r == 3 {
      x, y := -2 - 7 * q, 7;
    } else if r == 7 {
      x, y := -2 - 3 * q, 3;
    } else {
      assert r == 9;
      x, y := -8 - 9 * q, 9;
    }
  }

  /** A power of a prime base `p` dividing `p^k * m`, with `p` not dividing `m`, is at most `p^k`. */
  lemma {:induction false} PrimePowerBound(p: nat, a: nat, k: nat, m: nat)
    requires p > 1 && m > 0 && m % p != 0
    requires Divides(Pow(p, a), Pow(p, k) * m)
    ensures a <= k
    decreases a
  {
    if a > 0 {
      var q := DividesQuotient(Pow(p, a), Pow(p, k) * m);
      assert Pow(p, a) * q == p * (Pow(p, a - 1) * q) by { MulAssoc(p, Pow(p, a - 1), q); }
      if k == 0 {
        assert m == p * (Pow(p, a - 1) * q);
        DividesProduct(p, Pow(p, a - 1) * q);
        assert false;
      } else {
        assert Pow(p, k) * m == p * (Pow(p, k - 1) * m) by { MulAssoc(p, Pow(p, k - 1), m); }
        MulCancel(Pow(p, k - 1) * m, Pow(p, a - 1) * q, p);
        DividesProduct(Pow(p, a - 1), q);
        PrimePowerBound(p, a - 1, k - 1, m);
      }
    }
  }

  lemma {:induction false} PowNotDivisible(b: nat, p: nat, k: nat)
    requires (b == 5 && p == 2) || (b == 2 && p == 5)
    ensures Pow(b, k) % p != 0
  {
    if k > 0 {
      PowNotDivisible(b, p, k - 1);
      NotDivisibleTimes(b, p, Pow(b, k - 1));
    }
  }

  lemma NotDivisibleTimes(b: nat, p: nat, m: nat)
    requires (b == 5 && p == 2) || (b == 2 && p == 5)
    requires m % p != 0
    ensures (b * m) % p != 0
  {
    var q, r := m / p, m % p;
    if p == 2 {
      DivModUnique(5 * m, 2, 5 * q + 2, 1);
    } else {
      DivModUnique(2 * m, 5, 2 * q + (if r < 3 then 0 else 1), if r < 3 then 2 * r else 2 * r - 5);
    }
  }

  lemma DividesTransitive(a: int, b: int, n: int)
    requires a > 0 && b > 0 && Divides(a, b) && Divides(b, n)
    ensures Divides(a, n)
  {
    var p := DividesQuotient(a, b);
    var q := DividesQuotient(b, n);
    MulAssoc(a, p, q);
    DividesProduct(a, p * q);
  }
}
