/** Powers and the division facts the number modules share. */
module Arith {

  function Pow(b: nat, e: nat): nat
  {
    if e == 0 then 1 else b * Pow(b, e - 1)
  }

  lemma {:induction false} PowPositive(b: nat, e: nat)
    requires b >= 1
    ensures Pow(b, e) >= 1
  {
    if e == 0 {
    } else {
      PowPositive(b, e - 1);
    }
  }

  lemma {:induction false} PowAdd(b: nat, x: nat, y: nat)
    ensures Pow(b, x + y) == Pow(b, x) * Pow(b, y)
  {
    if x == 0 {
    } else {
      PowAdd(b, x - 1, y);
      assert b * (Pow(b, x - 1) * Pow(b, y)) == (b * Pow(b, x - 1)) * Pow(b, y);
    }
  }

  lemma {:induction false} PowPow(b: nat, x: nat, y: nat)
    ensures Pow(Pow(b, x), y) == Pow(b, x * y)
  {
    if y == 0 {
    } else {
      PowPow(b, x, y - 1);
      PowAdd(b, x, x * (y - 1));
      assert x * y == x + x * (y - 1);
    }
  }

  lemma {:induction false} PowMonotone(b: nat, x: nat, y: nat)
    requires b >= 1 && x <= y
    ensures Pow(b, x) <= Pow(b, y)
    decreases y
  {
    if x < y {
      PowMonotone(b, x, y - 1);
      MulLe(1, b, Pow(b, y - 1));
    }
  }

  /** Quotient and remainder are determined by the division equation. */
  lemma {:induction false} DivModUnique(a: int, b: int, q: int, r: int)
    requires b > 0 && a == q * b + r && 0 <= r < b
    ensures a / b == q && a % b == r
  {
    var d := a / b - q;
    assert d * b == r - a % b by {
      assert a == b * (a / b) + a % b;
      assert d * b == (a / b) * b - q * b;
    }
    assert d >= 1 ==> d * b >= b;
    assert d <= -1 ==> d * b <= -b;
  }

  /** Adding a multiple of the modulus changes only the quotient. */
  lemma {:induction false} AddMultiple(a: int, k: int, m: int)
    requires m > 0
    ensures (a + k * m) % m == a % m
    ensures (a + k * m) / m == a / m + k
  {
    assert a + k * m == (a / m + k) * m + a % m by {
      assert a == m * (a / m) + a % m;
      assert (a / m + k) * m == (a / m) * m + k * m;
    }
    DivModUnique(a + k * m, m, a / m + k, a % m);
  }

  lemma {:induction false} ModMul(a: int, b: int, m: int)
    requires m > 0
    ensures (a * b) % m == ((a % m) * (b % m)) % m
  {
    var qa, ra := a / m, a % m;
    var qb, rb := b / m, b % m;
    assert a == qa * m + ra && b == qb * m + rb;
    calc {
      a * b;
      (qa * m + ra) * b;
      qa * m * b + ra * b;
      qa * m * b + ra * (qb * m + rb);
      qa * m * b + ra * qb * m + ra * rb;
      { assert qa * m * b == (qa * b) * m; }
      ra * rb + (qa * b + ra * qb) * m;
    }
    AddMultiple(ra * rb, qa * b + ra * qb, m);
  }

  /** Products of congruent numbers are congruent. */
  lemma {:induction false} CongruentMul(a: int, a': int, b: int, b': int, m: int)
    requires m > 0 && a % m == a' % m && b % m == b' % m
    ensures (a * b) % m == (a' * b') % m
  {
    ModMul(a, b, m);
    ModMul(a', b', m);
  }

  lemma {:induction false} CongruentPow(a: nat, b: nat, e: nat, m: nat)
    requires m > 0 && a % m == b % m
    ensures Pow(a, e) % m == Pow(b, e) % m
  {
    if e == 0 {
    } else {
      CongruentPow(a, b, e - 1, m);
      CongruentMul(a, b, Pow(a, e - 1), Pow(b, e - 1), m);
    }
  }

  /** Dividing by a product is dividing twice, and the first remainder is the low part of the second. */
  lemma {:induction false} DivTwice(a: nat, b: nat, c: nat)
    requires b > 0 && c > 0
    ensures b * c > 0
    ensures (a / b) / c == a / (b * c)
    ensures a % (b * c) == (a / b) % c * b + a % b
  {
    var x, y := a / b, a % b;
    var q, r := x / c, x % c;
    assert a == (q * c + r) * b + y;
    assert (q * c + r) * b + y == q * (b * c) + (r * b + y);
    assert r * b + y < b * c by {
      assert r <= c - 1;
      assert r * b <= (c - 1) * b;
      assert (c - 1) * b == b * c - b;
    }
    assert b * c > 0;
    DivModUnique(a, b * c, q, r * b + y);
  }

  lemma {:induction false} MulLess(a: nat, b: nat, c: nat, d: nat)
    requires a < c && b < d
    ensures a * b < c * d
  {
    assert a * b <= a * d;
    assert a * d < c * d;
  }

  lemma {:induction false} MulLe(x: int, y: int, p: int)
    requires x <= y && p >= 0
    ensures x * p <= y * p
  {
  }

  /** A top digit d < r over weight p leaves room for one more p below r * p. */
  lemma {:induction false} TopDigit(d: int, r: int, p: int)
    requires 0 <= d < r && p >= 0
    ensures 0 <= d * p && d * p + p <= r * p
  {
    MulLe(0, d, p);
    MulLe(d + 1, r, p);
    assert (d + 1) * p == d * p + p;
  }
}
