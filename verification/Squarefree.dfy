/** Moduli without a repeated factor divide a power only if they divide its base. */
module Squarefree {
  import opened Arith

  predicate Divides(d: nat, x: int)
  {
    d > 0 && x % d == 0
  }

  /** No square above 1 divides m. */
  ghost predicate IsSquarefree(m: nat)
  {
    m > 0 && forall d: nat :: d > 1 ==> !Divides(d * d, m)
  }

  ghost predicate Coprime(a: nat, b: nat)
  {
    forall d: nat :: d > 1 && Divides(d, a) ==> !Divides(d, b)
  }

  lemma {:induction false} Multiple(d: nat, q: int, x: int)
    requires d > 0 && x == q * d
    ensures Divides(d, x)
  {
    DivModUnique(x, d, q, 0);
  }

  lemma {:induction false} DividesProduct(d: nat, x: int, y: int)
    requires Divides(d, x)
    ensures Divides(d, x * y)
  {
    var q := x / d;
    assert x * y == (q * y) * d by { assert x == q * d; }
    Multiple(d, q * y, x * y);
  }

  lemma {:induction false} DividesChain(c: nat, d: nat, x: int)
    requires Divides(c, d) && Divides(d, x)
    ensures Divides(c, x)
  {
    var q := x / d;
    assert x == d * q;
    DividesProduct(c, d, q);
  }

  lemma {:induction false} DividesDifference(d: nat, x: int, y: int)
    requires Divides(d, x) && Divides(d, y)
    ensures Divides(d, x - y)
  {
    var q, r := x / d, y / d;
    assert x - y == (q - r) * d by { assert x == q * d && y == r * d; }
    Multiple(d, q - r, x - y);
  }

  // ----- the order of x modulo m

  predicate Kills(m: nat, x: nat, j: nat)
  {
    Divides(m, j * x)
  }

  /** The least positive j for which m divides j * x. */
  ghost function Order(m: nat, x: nat, from: nat): (j: nat)
    requires 0 < from <= m && forall i :: 0 < i < from ==> !Kills(m, x, i)
    ensures from <= j <= m && Kills(m, x, j) && forall i :: 0 < i < j ==> !Kills(m, x, i)
    decreases m - from
  {
    if Kills(m, x, from) then from
    else
      assert from != m by { Multiple(m, x, m * x); }
      Order(m, x, from + 1)
  }

  /** It divides every other such number. */
  lemma {:induction false} OrderDivides(m: nat, x: nat, k: nat)
    requires m > 0 && Kills(m, x, k)
    ensures Divides(Order(m, x, 1), k)
  {
    var j := Order(m, x, 1);
    var q, r := k / j, k % j;
    assert k == q * j + r;
    if r != 0 {
      assert r * x == k * x - q * (j * x);
      DividesProduct(m, j * x, q);
      assert (j * x) * q == q * (j * x);
      DividesDifference(m, k * x, q * (j * x));
      assert Kills(m, x, r);
    }
  }

  /** A factor coprime to b that divides b * x divides x. */
  lemma {:induction false} CoprimeFactor(k: nat, b: nat, x: nat)
    requires k > 0 && Coprime(k, b) && Divides(k, b * x)
    ensures Divides(k, x)
  {
    var j := Order(k, x, 1);
    OrderDivides(k, x, b);
    assert Kills(k, x, k) by { Multiple(k, x, k * x); }
    OrderDivides(k, x, k);
    assert j == 1;
    assert 1 * x == x;
  }

  lemma {:induction false} CoprimePower(k: nat, b: nat, e: nat)
    requires k > 0 && Coprime(k, b) && Divides(k, Pow(b, e))
    ensures k == 1
  {
    if e == 0 {
      if k > 1 { DivModUnique(1, k, 0, 1); }
    } else {
      CoprimeFactor(k, b, Pow(b, e - 1));
      CoprimePower(k, b, e - 1);
    }
  }

  // ----- squarefree moduli

  lemma {:induction false} Cancel(j: nat, x: nat, y: nat)
    requires j > 0 && j * x == j * y
    ensures x == y
  {
    if x < y { MulLe(x + 1, y, j); } else if y < x { MulLe(y + 1, x, j); }
  }

  lemma {:induction false} Regroup(i: nat, u: nat, c: nat, g: nat)
    ensures i * ((u * c) * g) == u * ((i * c) * g)
  {
  }

  /** A common factor of j and t leaves a smaller j that does the same. */
  lemma {:induction false} SmallerKills(m: nat, b: nat, j: nat, g: nat, t: nat, c: nat)
    requires m > 0 && j > 0 && m == j * g && b == t * g && c > 1 && Divides(c, j) && Divides(c, t)
    ensures Kills(m, b, j / c) && 0 < j / c < j
  {
    var i, u := j / c, t / c;
    assert j == i * c && t == u * c;
    Regroup(i, u, c, g);
    Multiple(m, u, i * b);
    MulLe(2, c, i);
  }

  /** Since j is least, nothing divides both j and t, where b == t * g. */
  lemma {:induction false} CoprimeToCofactor(m: nat, b: nat, j: nat, g: nat, t: nat, d: nat)
    requires m > 0 && j == Order(m, b, 1) && m == j * g && b == t * g && d > 1 && Divides(d, j)
    ensures Coprime(d, t)
  {
    hide Divides;
    forall c: nat | c > 1 && Divides(c, d) ensures !Divides(c, t) {
      DividesChain(c, d, j);
      if Divides(c, t) { SmallerKills(m, b, j, g, t, c); }
    }
  }

  lemma {:induction false} Cofactors(m: nat, b: nat, j: nat) returns (g: nat, t: nat)
    requires m > 0 && Divides(j, m) && Kills(m, b, j)
    ensures m == j * g && b == t * g
  {
    g, t := m / j, (j * b) / m;
    assert j * b == t * m;
    assert t * (j * g) == j * (t * g);
    Cancel(j, b, t * g);
  }

  lemma {:induction false} SquareFactor(m: nat, j: nat, g: nat, d: nat)
    requires m == j * g && Divides(d, j) && Divides(d, g)
    ensures Divides(d * d, m)
  {
    var h, c := j / d, g / d;
    assert j == d * h && g == c * d;
    assert (d * h) * (c * d) == (h * c) * (d * d);
    Multiple(d * d, h * c, m);
  }

  /** The order of b modulo a squarefree m has no common factor with b. */
  lemma {:induction false} OrderCoprime(m: nat, b: nat, d: nat)
    requires IsSquarefree(m) && d > 1 && Divides(d, Order(m, b, 1))
    ensures !Divides(d, b)
  {
    hide Divides;
    if Divides(d, b) {
      var j := Order(m, b, 1);
      ItselfKills(m, b);
      OrderDivides(m, b, m);
      var g, t := Cofactors(m, b, j);
      CoprimeToCofactor(m, b, j, g, t, d);
      CoprimeFactor(d, t, g);
      SquareFactor(m, j, g, d);
    }
  }

  lemma {:induction false} ItselfKills(m: nat, b: nat)
    requires m > 0
    ensures Kills(m, b, m)
  {
    Multiple(m, b, m * b);
  }

  /** A squarefree number divides a power only if it divides the base. */
  lemma {:induction false} DividesBase(m: nat, b: nat, e: nat)
    requires IsSquarefree(m) && Divides(m, Pow(b, e))
    ensures Divides(m, b)
  {
    var j := Order(m, b, 1);
    ItselfKills(m, b);
    OrderDivides(m, b, m);
    forall d: nat | d > 1 && Divides(d, j) ensures !Divides(d, b) {
      OrderCoprime(m, b, d);
    }
    DividesChain(j, m, Pow(b, e));
    CoprimePower(j, b, e);
    assert 1 * b == b;
  }
}
