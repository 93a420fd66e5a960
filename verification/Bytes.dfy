/** Octets, exclusive or, and little-endian byte strings. */
module Bytes {
  import opened Arith
  import opened Digits

  type Octet = x: int | 0 <= x < 256

  // ----- exclusive or

  function Xor(a: nat, b: nat): nat
    decreases a + b
  {
    if a == 0 then b else if b == 0 then a
    else 2 * Xor(a / 2, b / 2) + (if a % 2 == b % 2 then 0 else 1)
  }

  lemma {:induction false} XorZero(a: nat)
    ensures Xor(a, a) == 0 && Xor(a, 0) == a
  {
    if a == 0 {
    } else {
      XorZero(a / 2);
    }
  }

  lemma {:induction false} XorHalves(a: nat, b: nat)
    ensures Xor(a, b) / 2 == Xor(a / 2, b / 2)
    ensures Xor(a, b) % 2 == if a % 2 == b % 2 then 0 else 1
  {
    XorZero(a / 2);
  }

  /** Applying the same mask twice gives the value back. */
  lemma {:induction false} XorTwice(a: nat, b: nat)
    ensures Xor(Xor(a, b), b) == a
    decreases a + b
  {
    if a == 0 { XorZero(b); }
    else if b == 0 { XorZero(a); }
    else {
      XorTwice(a / 2, b / 2);
      XorHalves(a, b);
      XorHalves(Xor(a, b), b);
    }
  }

  lemma {:induction false} XorCommutes(a: nat, b: nat)
    ensures Xor(a, b) == Xor(b, a)
    decreases a + b
  {
    if a == 0 || b == 0 {
    } else {
      XorCommutes(a / 2, b / 2);
    }
  }

  /** Exclusive or with a fixed number is injective. */
  lemma {:induction false} XorInjective(a: nat, b: nat, k: nat)
    requires Xor(a, k) == Xor(b, k) || Xor(k, a) == Xor(k, b)
    ensures a == b
  {
    XorCommutes(k, a);
    XorCommutes(k, b);
    XorTwice(a, k);
    XorTwice(b, k);
  }

  lemma {:induction false} XorBound(a: nat, b: nat, k: nat)
    requires a < Pow(2, k) && b < Pow(2, k)
    ensures Xor(a, b) < Pow(2, k)
  {
    if k == 0 {
    } else {
      assert Pow(2, k) == 2 * Pow(2, k - 1);
      XorBound(a / 2, b / 2, k - 1);
      XorHalves(a, b);
    }
  }

  function XorOctet(a: Octet, b: Octet): Octet
  {
    assert Pow(2, 8) == 256;
    XorBound(a, b, 8);
    Xor(a, b)
  }

  // ----- little-endian strings

  /** The number a little-endian byte string denotes. */
  function LeValue(data: seq<Octet>): (v: nat)
  {
    ValBound(data, 256, |data|);
    Val(data, 256, |data|)
  }

  /** The n low bytes of v, least significant first. */
  function LeBytes(v: nat, n: nat): (s: seq<Octet>)
    ensures |s| == n && forall k :: 0 <= k < n ==> s[k] == DigitAt(v, 256, k)
  {
    seq(n, k requires 0 <= k < n => DigitAt(v, 256, k))
  }

  lemma {:induction false} LeRoundTrip(v: nat, n: nat)
    ensures Pow(256, n) > 0 && LeValue(LeBytes(v, n)) == v % Pow(256, n)
  {
    DigitsVal(LeBytes(v, n), 256, n, v);
  }

  lemma {:induction false} LeRoundTripBytes(s: seq<Octet>)
    ensures LeBytes(LeValue(s), |s|) == s
  {
    forall k | 0 <= k < |s| ensures DigitAt(LeValue(s), 256, k) == s[k] {
      ValDigit(s, 256, |s|, k);
    }
  }

  /** Equal byte strings mean equal numbers, up to the width. */
  lemma {:induction false} LeInjective(u: nat, v: nat, n: nat)
    requires u < Pow(256, n) && v < Pow(256, n) && LeBytes(u, n) == LeBytes(v, n)
    ensures u == v
  {
    LeRoundTrip(u, n);
    LeRoundTrip(v, n);
    DivModUnique(u, Pow(256, n), 0, u);
    DivModUnique(v, Pow(256, n), 0, v);
  }
}
