/** Little-endian positional numbers: the value of a digit sequence, and the bit operations on words. */
module Digits {
  import opened Arith

  /** The number whose n low digits in radix r are s[0], ..., s[n-1]; digits may be out of range or negative. */
  function Val(s: seq<int>, r: nat, n: nat): int
    requires n <= |s|
  {
    if n == 0 then 0 else Val(s, r, n - 1) + s[n - 1] * Pow(r, n - 1)
  }

  ghost predicate Normal(s: seq<int>, r: nat, n: nat)
    requires n <= |s|
  {
    forall i :: 0 <= i < n ==> 0 <= s[i] < r
  }

  /** Only the low n digits matter. */
  lemma {:induction false} ValCongruent(s: seq<int>, t: seq<int>, r: nat, n: nat)
    requires n <= |s| && n <= |t| && forall i :: 0 <= i < n ==> s[i] == t[i]
    ensures Val(s, r, n) == Val(t, r, n)
  {
    if n == 0 {
    } else {
      ValCongruent(s, t, r, n - 1);
    }
  }

  lemma {:induction false} ValUpdate(s: seq<int>, r: nat, n: nat, k: nat, x: int)
    requires k < n <= |s|
    ensures Val(s[k := x], r, n) == Val(s, r, n) + (x - s[k]) * Pow(r, k)
  {
    if k == n - 1 {
      ValCongruent(s, s[k := x], r, n - 1);
      assert (x - s[k]) * Pow(r, k) == x * Pow(r, k) - s[k] * Pow(r, k);
    } else {
      ValUpdate(s, r, n - 1, k, x);
    }
  }

  lemma {:induction false} ValBound(s: seq<int>, r: nat, n: nat)
    requires n <= |s| && Normal(s, r, n)
    ensures 0 <= Val(s, r, n) < Pow(r, n)
  {
    if n == 0 {
    } else {
      ValBound(s, r, n - 1);
      TopDigit(s[n - 1], r, Pow(r, n - 1));
    }
  }

  /** Zero digits above k leave the value unchanged. */
  lemma {:induction false} ValTrim(s: seq<int>, r: nat, k: nat, n: nat)
    requires k <= n <= |s| && forall i :: k <= i < n ==> s[i] == 0
    ensures Val(s, r, n) == Val(s, r, k)
    decreases n
  {
    if k < n { ValTrim(s, r, k, n - 1); }
  }

  /** A value splits into its low k digits and the rest, and the rest is what division leaves. */
  lemma {:induction false} ValSplit(s: seq<int>, r: nat, k: nat, n: nat)
    requires k <= n <= |s| && r > 0
    ensures Val(s, r, n) == Val(s, r, k) + Pow(r, k) * Val(s[k..], r, n - k)
    decreases n
  {
    if k < n {
      ValSplit(s, r, k, n - 1);
      PowAdd(r, k, n - 1 - k);
      var d, x, y := s[n - 1], Pow(r, k), Pow(r, n - 1 - k);
      assert s[k..][n - 1 - k] == d;
      assert x * (Val(s[k..], r, n - 1 - k) + d * y) == x * Val(s[k..], r, n - 1 - k) + d * (x * y);
    }
  }

  lemma {:induction false} ValOne(s: seq<int>, r: nat)
    requires |s| >= 1
    ensures Val(s, r, 1) == s[0] && Pow(r, 1) == r
  {
    assert Val(s, r, 0) == 0 && Pow(r, 0) == 1;
  }

  /** The lowest digit is the remainder by the radix. */
  lemma {:induction false} ValTail(s: seq<int>, r: nat, n: nat)
    requires 1 <= n <= |s| && r > 0 && Normal(s, r, n)
    ensures Val(s, r, n) % r == s[0] && Val(s, r, n) >= s[0]
  {
    var v, rest := Val(s, r, n), Val(s[1..], r, n - 1);
    assert v == s[0] + r * rest by {
      ValSplit(s, r, 1, n);
      ValOne(s, r);
    }
    assert rest >= 0 by { ValBound(s[1..], r, n - 1); }
    MulLe(0, rest, r);
    DivModUnique(v, r, rest, s[0]);
  }

  /** Digit k of v in radix r. */
  function DigitAt(v: nat, r: nat, k: nat): (d: nat)
    requires r > 0
    ensures d < r
  {
    PowPositive(r, k);
    v / Pow(r, k) % r
  }

  /** The digits of a normal number are the digits of its value. */
  lemma {:induction false} ValDigit(s: seq<int>, r: nat, n: nat, k: nat)
    requires k < n <= |s| && r > 0 && Normal(s, r, n)
    ensures Val(s, r, n) >= 0 && DigitAt(Val(s, r, n), r, k) == s[k]
    ensures Val(s, r, n) >= s[k] * Pow(r, k)
  {
    PowPositive(r, k);
    ValBound(s, r, n);
    ValBound(s, r, k);
    var v, p, hi := Val(s, r, n), Pow(r, k), Val(s[k..], r, n - k);
    assert v == Val(s, r, k) + p * hi by { ValSplit(s, r, k, n); }
    DivModUnique(v, p, hi, Val(s, r, k));
    assert hi % r == s[k] && hi >= s[k] by { ValTail(s[k..], r, n - k); }
    MulLe(s[k], hi, p);
  }

  /** Conversely, the digits of a number give that number back, up to the width. */
  lemma {:induction false} DigitsVal(s: seq<int>, r: nat, n: nat, v: nat)
    requires n <= |s| && r > 0
    requires forall k :: 0 <= k < n ==> s[k] == DigitAt(v, r, k)
    ensures Pow(r, n) > 0 && Val(s, r, n) == v % Pow(r, n)
  {
    PowPositive(r, n);
    if n == 0 {
    } else {
      DigitsVal(s, r, n - 1, v);
      var p, x := Pow(r, n - 1), s[n - 1];
      assert x == v / p % r;
      DigitStep(v, p, r);
    }
  }

  lemma {:induction false} DigitStep(v: nat, p: nat, r: nat)
    requires p > 0 && r > 0
    ensures r * p > 0 && v % (r * p) == v % p + v / p % r * p
  {
    DivTwice(v, p, r);
    assert p * r == r * p;
  }

  lemma {:induction false} ZeroMultiple(d: int, p: int, v: int)
    requires d >= 0 && p > 0 && d * p <= v < p
    ensures d == 0
  {
    MulLe(if d >= 1 then 1 else 0, d, p);
  }

  /** A number below r^k has no digit at or above k. */
  lemma {:induction false} HighDigitsZero(s: seq<int>, r: nat, n: nat, k: nat)
    requires k <= n <= |s| && r > 0 && Normal(s, r, n) && Val(s, r, n) < Pow(r, k)
    ensures forall i :: k <= i < n ==> s[i] == 0
    ensures Val(s, r, n) == Val(s, r, k)
  {
    forall i | k <= i < n ensures s[i] == 0 {
      ValDigit(s, r, n, i);
      PowMonotone(r, k, i);
      ZeroMultiple(s[i], Pow(r, i), Val(s, r, n));
    }
    ValTrim(s, r, k, n);
  }

  lemma {:induction false} PairWeight(lo: int, hi: int, r: int, p: int)
    ensures (lo + hi * r) * p == lo * p + hi * (r * p)
  {
  }

  /** Merging digits pairwise: radix r*r digits lo + r*hi have the same value. */
  lemma {:induction false} ValPairs(s: seq<int>, t: seq<int>, r: nat, n: nat)
    requires 2 * n <= |s| && n <= |t|
    requires forall i :: 0 <= i < n ==> t[i] == s[2 * i] + s[2 * i + 1] * r
    ensures Val(t, r * r, n) == Val(s, r, 2 * n)
  {
    if n == 0 {
    } else {
      ValPairs(s, t, r, n - 1);
      var p := Pow(r, 2 * n - 2);
      assert Pow(r * r, n - 1) == p by {
        PowPow(r, 2, n - 1);
        assert Pow(r, 2) == r * r by { assert Pow(r, 1) == r; }
      }
      PairWeight(s[2 * n - 2], s[2 * n - 1], r, p);
    }
  }

  // ----- bit operations on unsigned words

  function And(a: nat, b: nat): nat
  {
    if a == 0 || b == 0 then 0 else 2 * And(a / 2, b / 2) + (if a % 2 == 1 && b % 2 == 1 then 1 else 0)
  }

  function Or(a: nat, b: nat): nat
    decreases a + b
  {
    if a == 0 then b else if b == 0 then a
    else 2 * Or(a / 2, b / 2) + (if a % 2 == 1 || b % 2 == 1 then 1 else 0)
  }

  /** Masking with 2^k - 1 is the remainder by 2^k. */
  lemma {:induction false} AndMask(a: nat, k: nat)
    ensures Pow(2, k) > 0 && And(a, Pow(2, k) - 1) == a % Pow(2, k)
  {
    PowPositive(2, k);
    if k == 0 {
    } else {
      PowPositive(2, k - 1);
      var p := Pow(2, k - 1);
      AndMask(a / 2, k - 1);
      DivTwice(a, 2, p);
      assert (2 * p - 1) / 2 == p - 1;
      assert (2 * p - 1) % 2 == 1;
      if a == 0 { DivModUnique(0, 2 * p, 0, 0); }
    }
  }

  lemma {:induction false} OrEven(x: nat, lo: nat)
    ensures Or(lo, 2 * x) == 2 * Or(lo / 2, x) + lo % 2
    ensures Or(2 * x, lo) == 2 * Or(x, lo / 2) + lo % 2
  {
    assert (2 * x) / 2 == x && (2 * x) % 2 == 0;
  }

  /** Joining bit fields that do not overlap is addition. */
  lemma {:induction false} OrDisjoint(hi: nat, x: nat, lo: nat, k: nat)
    requires lo < Pow(2, k) && x == hi * Pow(2, k)
    ensures Or(lo, x) == lo + x && Or(x, lo) == lo + x
  {
    if k == 0 {
      assert lo == 0;
    } else {
      var y := hi * Pow(2, k - 1);
      assert x == 2 * y by { assert Pow(2, k) == 2 * Pow(2, k - 1); }
      OrDisjoint(hi, y, lo / 2, k - 1);
      OrEven(y, lo);
    }
  }

  // ----- bit length

  function BitLen(v: nat): nat
  {
    if v == 0 then 0 else 1 + BitLen(v / 2)
  }

  lemma {:induction false} BitLenBounds(v: nat)
    ensures v < Pow(2, BitLen(v))
    ensures v > 0 ==> BitLen(v) >= 1 && Pow(2, BitLen(v) - 1) <= v
  {
    if v == 0 {
    } else {
      BitLenBounds(v / 2);
      if v / 2 > 0 { assert Pow(2, BitLen(v) - 1) == 2 * Pow(2, BitLen(v / 2) - 1); }
    }
  }

  lemma {:induction false} BracketUnique(v: nat, j: nat, k: nat)
    requires j >= 1 && Pow(2, j - 1) <= v < Pow(2, j)
    requires k >= 1 && Pow(2, k - 1) <= v < Pow(2, k)
    ensures j == k
  {
    if j < k { PowMonotone(2, j, k - 1); }
    if k < j { PowMonotone(2, k, j - 1); }
  }

  lemma {:induction false} BitLenUnique(v: nat, k: nat)
    requires k >= 1 && Pow(2, k - 1) <= v < Pow(2, k)
    ensures BitLen(v) == k
  {
    PowPositive(2, k - 1);
    BitLenBounds(v);
    BracketUnique(v, BitLen(v), k);
  }

  lemma {:induction false} BitLenMonotone(u: nat, v: nat)
    requires u <= v
    ensures BitLen(u) <= BitLen(v)
  {
    BitLenBounds(u);
    BitLenBounds(v);
    if u > 0 && BitLen(u) > BitLen(v) { PowMonotone(2, BitLen(v), BitLen(u) - 1); }
  }

  /** v shifted left by k bits. */
  function Scale(v: nat, k: nat): nat
  {
    v * Pow(2, k)
  }

  lemma {:induction false} BitLenShift(v: nat, k: nat)
    requires v > 0
    ensures BitLen(Scale(v, k)) == BitLen(v) + k
  {
    BitLenBounds(v);
    var b, p := BitLen(v), Pow(2, k);
    PowPositive(2, k);
    PowAdd(2, b - 1, k);
    PowAdd(2, b, k);
    MulLe(Pow(2, b - 1), v, p);
    MulLe(v + 1, Pow(2, b), p);
    assert (v + 1) * p == v * p + p;
    BitLenUnique(v * p, b + k);
  }

  /** The bit length of a number is that of its top digit plus the width below it. */
  lemma {:induction false} BitLenTop(low: nat, d: nat, k: nat)
    requires d > 0 && low < Pow(2, k)
    ensures BitLen(low + d * Pow(2, k)) == BitLen(d) + k
  {
    BitLenBounds(d);
    var b, p := BitLen(d), Pow(2, k);
    PowAdd(2, b - 1, k);
    PowAdd(2, b, k);
    MulLe(Pow(2, b - 1), d, p);
    TopDigit(d, Pow(2, b), p);
    BitLenUnique(low + d * p, b + k);
  }

  /** Equal digits from k up cancel. */
  lemma {:induction false} ValDiff(s: seq<int>, t: seq<int>, r: nat, k: nat, n: nat)
    requires k <= n <= |s| && n <= |t| && forall i :: k <= i < n ==> s[i] == t[i]
    ensures Val(s, r, n) - Val(t, r, n) == Val(s, r, k) - Val(t, r, k)
    decreases n
  {
    if k < n { ValDiff(s, t, r, k, n - 1); }
  }

  /** The higher digit decides. */
  lemma {:induction false} ValLess(s: seq<int>, t: seq<int>, r: nat, n: nat)
    requires 1 <= n <= |s| && n <= |t| && Normal(s, r, n) && Normal(t, r, n) && s[n - 1] < t[n - 1]
    ensures Val(s, r, n) < Val(t, r, n)
  {
    ValBound(s, r, n - 1);
    ValBound(t, r, n - 1);
    var p := Pow(r, n - 1);
    MulLe(s[n - 1] + 1, t[n - 1], p);
    assert (s[n - 1] + 1) * p == s[n - 1] * p + p;
  }

  lemma {:induction false} ModThenDiv(w: nat, q: nat, p: nat, R: nat)
    requires q > 0 && p > 0 && R == p * q
    ensures R > 0 && (w % R) / q == w / q % p && (w % R) % q == w % q
  {
    DivTwice(w, q, p);
    assert q * p == R;
    DivModUnique(w % R, q, w / q % p, w % q);
  }

  /** Multiplying by p modulo p * q only sees the factor modulo q. */
  lemma {:induction false} MulThenMod(y: nat, q: nat, p: nat, R: nat)
    requires q > 0 && p > 0 && R == p * q
    ensures R > 0 && (y * p) % R == (y % q) * p
  {
    var z, k := y % q, y / q;
    assert y == k * q + z;
    assert R == q * p;
    TopDigit(z, q, p);
    assert y * p == k * R + z * p by {
      assert (k * q + z) * p == k * (q * p) + z * p;
    }
    DivModUnique(y * p, R, k, z * p);
  }

  /**
   A digit window that straddles two digits: with R = p * q, the digit found q below a
   digit boundary is the top of the lower digit joined to the bottom of the upper one.
   */
  lemma {:induction false} Window(w: nat, q: nat, p: nat, R: nat)
    requires q > 0 && p > 0 && R == p * q
    ensures R > 0 && 0 <= (w % R) / q < p
    ensures ((w / R % R) * p) % R == (w / R % q) * p
    ensures (w / q) % R == (w % R) / q + (w / R % q) * p
  {
    ModThenDiv(w, q, p, R);
    var y := w / R;
    ModThenDiv(y, q, p, R);
    MulThenMod(y % R, q, p, R);
    DivTwice(w, q, p);
    assert q * p == R;
    DivTwice(w / q, p, q);
  }

  /** The two bit fields of a straddling digit do not overlap and fit in the radix. */
  lemma {:induction false} FieldBounds(x: nat, z: nat, q: nat, p: nat, R: nat)
    requires q > 0 && p > 0 && R == p * q && x < R && z < q
    ensures 0 <= x / q < p && x / q + z * p < R
  {
    assert R == q * p;
    TopDigit(z, q, p);
    assert 0 <= x / q < p by {
      var d := x / q;
      assert d * q <= x;
      if d >= p { MulLe(p, d, q); }
    }
  }
}
