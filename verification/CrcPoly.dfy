/** Polynomials over two elements modulo x^16 + x^12 + x^5 + 1, as 16-bit words. */
module CrcPoly {
  function Plus(a: bv16, b: bv16): bv16
  {
    a ^ b
  }

  /** Multiplication by x: the bit that leaves at the top stands for x^16, which is x^12 + x^5 + 1. */
  function Shift(r: bv16): bv16
  {
    (r << 1) ^ (r >> 15) ^ ((r >> 15) << 5) ^ ((r >> 15) << 12)
  }

  /** The usual form: subtract the generator when a bit leaves. */
  lemma {:induction false} ShiftByGenerator(r: bv16)
    ensures r >> 15 == 0 ==> Shift(r) == r << 1
    ensures r >> 15 == 1 ==> Shift(r) == (r << 1) ^ 0x1021
    ensures r >> 15 == 0 || r >> 15 == 1
  {
  }

  /** Multiplication by x^n. */
  function Times(r: bv16, n: nat): bv16
    decreases n
  {
    if n == 0 then r else Times(Shift(r), n - 1)
  }

  /** Bit values at the low and the high end of a word. */
  function Low(b: bool): bv16 { if b then 1 else 0 }
  function High(b: bool): bv16 { if b then 0x8000 else 0 }

  /** Long division, most significant bit first: the remainder of r * x^|bits| + bits. */
  function Remainder(r: bv16, bits: seq<bool>): bv16
    decreases bits
  {
    if bits == [] then r else Remainder(Plus(Shift(r), Low(bits[0])), bits[1..])
  }

  /** The register form: bits enter at the top, no zeros are appended. */
  function Feed(r: bv16, bits: seq<bool>): bv16
    decreases bits
  {
    if bits == [] then r else Feed(Shift(Plus(r, High(bits[0]))), bits[1..])
  }

  // ----- algebra

  lemma {:induction false} WordsLinear(a: bv16, b: bv16)
    ensures Shift(a ^ b) == Shift(a) ^ Shift(b)
  {
  }

  lemma {:induction false} ShiftLinear(a: bv16, b: bv16)
    ensures Shift(Plus(a, b)) == Plus(Shift(a), Shift(b))
  {
    hide Shift;
    WordsLinear(a, b);
  }

  lemma {:induction false} ShiftInjective(a: bv16, b: bv16)
    requires Shift(a) == Shift(b)
    ensures a == b
  {
  }

  lemma {:induction false} PlusLaws(a: bv16, b: bv16, c: bv16)
    ensures Plus(a, 0) == a && Plus(a, Plus(b, c)) == Plus(Plus(a, b), c) && Plus(a, b) == Plus(b, a)
    ensures Plus(Plus(a, b), b) == a
  {
  }

  lemma {:induction false} TimesLinear(a: bv16, b: bv16, n: nat)
    ensures Times(Plus(a, b), n) == Plus(Times(a, n), Times(b, n))
    decreases n
  {
    hide Shift, Plus;
    if n == 0 {
    } else {
      ShiftLinear(a, b);
      TimesLinear(Shift(a), Shift(b), n - 1);
    }
  }

  lemma {:induction false} TimesInjective(a: bv16, b: bv16, n: nat)
    requires Times(a, n) == Times(b, n)
    ensures a == b
    decreases n
  {
    hide Shift, Plus;
    if n == 0 {
    } else {
      TimesInjective(Shift(a), Shift(b), n - 1);
      ShiftInjective(a, b);
    }
  }

  lemma {:induction false} TimesShift(r: bv16, n: nat)
    ensures Times(Shift(r), n) == Shift(Times(r, n))
    decreases n
  {
    hide Shift, Plus;
    if n == 0 {
    } else {
      TimesShift(Shift(r), n - 1);
    }
  }

  lemma {:induction false} TimesAdd(r: bv16, m: nat, n: nat)
    ensures Times(r, m + n) == Times(Times(r, m), n)
    decreases m
  {
    hide Shift, Plus;
    if m == 0 {
    } else {
      TimesAdd(Shift(r), m - 1, n);
    }
  }

  lemma {:induction false} ZeroTimes(n: nat)
    ensures Times(0, n) == 0
    decreases n
  {
    if n == 0 {
    } else {
      assert Shift(0) == 0;
      ZeroTimes(n - 1);
    }
  }

  lemma {:induction false} XToThe16()
    ensures Times(1, 16) == 0x1021
  {
    assert Times(1, 4) == 0x10 && Times(0x10, 4) == 0x100 && Times(0x100, 4) == 0x1000 && Times(0x1000, 4) == 0x1021;
    TimesAdd(1, 4, 4);
    TimesAdd(1, 8, 4);
    TimesAdd(1, 12, 4);
  }

  // ----- the register form is long division of the message followed by sixteen zeros

  lemma {:induction false} BitAhead(b: bool)
    ensures Shift(High(b)) == Times(Low(b), 16)
  {
    hide Times;
    XToThe16();
    ZeroTimes(16);
  }

  /** A register sixteen places ahead stays sixteen places ahead. */
  lemma {:induction false} FeedIsRemainder(r: bv16, bits: seq<bool>)
    ensures Feed(Times(r, 16), bits) == Times(Remainder(r, bits), 16)
    decreases bits
  {
    hide Shift, Times, Plus, High, Low;
    if bits == [] {
    } else {
      var b := bits[0];
      ShiftLinear(Times(r, 16), High(b));
      TimesLinear(Shift(r), Low(b), 16);
      TimesShift(r, 16);
      BitAhead(b);
      FeedIsRemainder(Plus(Shift(r), Low(b)), bits[1..]);
    }
  }

  function Zeros(n: nat): seq<bool>
  {
    seq(n, _ => false)
  }

  lemma {:induction false} ShiftIn(r: bv16)
    ensures Plus(Shift(r), Low(false)) == Shift(r)
  {
    hide Shift;
  }

  lemma {:induction false} AppendZeros(r: bv16, bits: seq<bool>, n: nat)
    ensures Remainder(r, bits + Zeros(n)) == Times(Remainder(r, bits), n)
    decreases |bits| + n
  {
    hide Shift, Plus, Low;
    if bits != [] {
      assert (bits + Zeros(n))[1..] == bits[1..] + Zeros(n);
      AppendZeros(Plus(Shift(r), Low(bits[0])), bits[1..], n);
    } else if n > 0 {
      assert (bits + Zeros(n))[1..] == bits + Zeros(n - 1);
      ShiftIn(r);
      AppendZeros(Shift(r), bits, n - 1);
    }
  }

  lemma {:induction false} FeedIsDivision(bits: seq<bool>)
    ensures Feed(0, bits) == Remainder(0, bits + Zeros(16))
  {
    hide Shift, Plus, Low, High, Times, Feed, Remainder;
    ZeroTimes(16);
    FeedIsRemainder(0, bits);
    AppendZeros(0, bits, 16);
  }

  // ----- error bursts

  lemma {:induction false} FeedAppend(r: bv16, a: seq<bool>, b: seq<bool>)
    ensures Feed(r, a + b) == Feed(Feed(r, a), b)
    decreases a
  {
    hide Shift, Plus, High;
    if a == [] {
      assert a + b == b;
    } else {
      assert (a + b)[1..] == a[1..] + b;
      FeedAppend(Shift(Plus(r, High(a[0]))), a[1..], b);
    }
  }

  lemma {:induction false} PlusInjective(a: bv16, b: bv16, c: bv16)
    requires Plus(a, c) == Plus(b, c)
    ensures a == b
  {
  }

  /** Different registers stay different under the same bits. */
  lemma {:induction false} FeedInjective(a: bv16, b: bv16, bits: seq<bool>)
    requires Feed(a, bits) == Feed(b, bits)
    ensures a == b
    decreases bits
  {
    hide Shift, Plus, High;
    if bits == [] {
    } else {
      var h := High(bits[0]);
      FeedInjective(Shift(Plus(a, h)), Shift(Plus(b, h)), bits[1..]);
      ShiftInjective(Plus(a, h), Plus(b, h));
      PlusInjective(a, b, h);
    }
  }

  function Diff(u: seq<bool>, v: seq<bool>): seq<bool>
    requires |u| == |v|
  {
    seq(|u|, i requires 0 <= i < |u| => u[i] != v[i])
  }

  lemma {:induction false} DiffBit(a: bv16, b: bv16, x: bool, y: bool)
    ensures Plus(Plus(a, High(x)), Plus(b, High(y))) == Plus(Plus(a, b), High(x != y))
  {
    hide Plus;
    PlusShuffle(a, b, High(x), High(y));
    assert Plus(High(x), High(y)) == High(x != y) by {
      PlusLaws(0, High(x), 0);
      PlusLaws(High(x), High(x), 0);
      PlusLaws(High(y), High(x), 0);
      PlusSelf(High(x));
    }
  }

  lemma {:induction false} PlusSelf(a: bv16)
    ensures Plus(a, a) == 0
  {
  }

  lemma {:induction false} PlusShuffle(a: bv16, b: bv16, c: bv16, d: bv16)
    ensures Plus(Plus(a, c), Plus(b, d)) == Plus(Plus(a, b), Plus(c, d))
  {
    hide Plus;
    PlusLaws(Plus(a, c), b, d);
    PlusLaws(a, c, b);
    PlusLaws(c, b, 0);
    PlusLaws(a, b, c);
    PlusLaws(Plus(a, b), c, d);
  }

  /** The difference of two registers is the register of the difference. */
  lemma {:induction false} FeedDiff(a: bv16, b: bv16, u: seq<bool>, v: seq<bool>)
    requires |u| == |v|
    ensures Plus(Feed(a, u), Feed(b, v)) == Feed(Plus(a, b), Diff(u, v))
    decreases u
  {
    hide Shift, Plus, High;
    if u == [] {
    } else {
      var a', b' := Plus(a, High(u[0])), Plus(b, High(v[0]));
      DiffBit(a, b, u[0], v[0]);
      ShiftLinear(a', b');
      assert Diff(u, v)[1..] == Diff(u[1..], v[1..]);
      FeedDiff(Shift(a'), Shift(b'), u[1..], v[1..]);
    }
  }

  /** k low bits set. */
  function Ones(k: nat): bv16
  {
    if k == 0 then 0 else (Ones(k - 1) << 1) ^ 1
  }

  lemma {:induction false} OnesBound(k: nat)
    requires k < 16
    ensures Ones(k) >> 15 == 0
  {
    var a, b, c, d := Ones(3), Ones(7), Ones(11), Ones(15);
    assert a == 0x7 && b == 0x7F && c == 0x7FF && d == 0x7FFF;
    assert k == 0 || k == 1 || k == 2 || k == 3 || k == 4 || k == 5 || k == 6 || k == 7
        || k == 8 || k == 9 || k == 10 || k == 11 || k == 12 || k == 13 || k == 14 || k == 15;
  }

  lemma {:induction false} WordStep(r: bv16, m: bv16, b: bv16)
    requires r & (m ^ 0xFFFF) == 0 && m >> 15 == 0 && (b == 0 || b == 1)
    ensures r >> 15 == 0 && ((r << 1) ^ b) & (((m << 1) ^ 1) ^ 0xFFFF) == 0
    ensures r != 0 || b != 0 ==> (r << 1) ^ b != 0
  {
  }

  /** Only the k low bits of r can be set. */
  predicate Below(r: bv16, k: nat)
  {
    r & (Ones(k) ^ 0xFFFF) == 0
  }

  lemma {:induction false} NonZeroStep(r: bv16, m: bv16, b: bool)
    requires r & (m ^ 0xFFFF) == 0 && m >> 15 == 0
    ensures Plus(Shift(r), Low(b)) & (((m << 1) ^ 1) ^ 0xFFFF) == 0
    ensures r != 0 || b ==> Plus(Shift(r), Low(b)) != 0
  {
    hide Shift;
    WordStep(r, m, Low(b));
    ShiftByGenerator(r);
  }

  /** While no bit leaves at the top, a non-zero remainder stays non-zero. */
  lemma {:induction false} StepStaysNonZero(r: bv16, k: nat, b: bool)
    requires Below(r, k) && k < 16
    ensures Below(Plus(Shift(r), Low(b)), k + 1)
    ensures r != 0 || b ==> Plus(Shift(r), Low(b)) != 0
  {
    hide Shift, Plus, Low;
    OnesBound(k);
    NonZeroStep(r, Ones(k), b);
  }

  /** Up to sixteen bits, not all zero, leave a non-zero remainder: they are too short to be divided. */
  lemma {:induction false} ShortRemainder(r: bv16, bits: seq<bool>, k: nat)
    requires Below(r, k) && k + |bits| <= 16 && (r != 0 || true in bits)
    ensures Remainder(r, bits) != 0
    decreases bits
  {
    hide Shift, Plus, Low, Below;
    if bits == [] {
    } else {
      StepStaysNonZero(r, k, bits[0]);
      ShortRemainder(Plus(Shift(r), Low(bits[0])), bits[1..], k + 1);
    }
  }

  /** Two messages that differ, and only within sixteen consecutive bits, leave different registers. */
  lemma {:induction false} BurstDetected(r: bv16, a: seq<bool>, u: seq<bool>, v: seq<bool>, b: seq<bool>)
    requires |u| == |v| <= 16 && u != v
    ensures Feed(r, a + u + b) != Feed(r, a + v + b)
  {
    hide Shift, Plus, High, Low, Times, Feed, Remainder;
    FeedAppend(r, a + u, b);
    FeedAppend(r, a + v, b);
    FeedAppend(r, a, u);
    FeedAppend(r, a, v);
    var s := Feed(r, a);
    if Feed(s, u) == Feed(s, v) {
      FeedDiff(s, s, u, v);
      PlusSelf(s);
      PlusSelf(Feed(s, u));
      var d := Diff(u, v);
      var i :| 0 <= i < |u| && u[i] != v[i];
      assert d[i];
      ZeroTimes(16);
      FeedIsRemainder(0, d);
      TimesInjective(Remainder(0, d), 0, 16);
      NothingSet();
      ShortRemainder(0, d, 0);
    }
    if Feed(r, a + u + b) == Feed(r, a + v + b) {
      FeedInjective(Feed(s, u), Feed(s, v), b);
    }
  }

  lemma {:induction false} NothingSet()
    ensures Below(0, 0)
  {
  }
}
