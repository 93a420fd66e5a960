/**
 The client's big-natural arithmetic: N_SIZE digits of 56 bits kept in 64-bit words.
 Every array cell has type Word, so a store that could leave 64 bits does not verify;
 where the program relies on wrap-around (N_sub, left shifts) the reduction is written out.
 */
module Natural {
  import opened Arith
  import opened Digits

  const SIZE: nat := 19
  const WORD := 0x1_0000_0000_0000_0000
  const RADIX := 0x0100_0000_0000_0000
  const HALF := 0x1000_0000

  type Word = x: int | 0 <= x < WORD

  lemma {:induction false} Constants()
    ensures Pow(2, 28) == HALF && HALF * HALF == RADIX && Pow(2, 56) == RADIX && Pow(2, 64) == WORD
  {
    assert Pow(2, 8) == 256;
    PowAdd(2, 8, 8);
    PowAdd(2, 16, 8);
    assert Pow(2, 4) == 16;
    PowAdd(2, 24, 4);
    PowAdd(2, 28, 28);
    PowAdd(2, 56, 8);
  }

  function Shr(x: nat, s: nat): nat
  {
    PowPositive(2, s);
    x / Pow(2, s)
  }

  function Shl(x: nat, s: nat): Word
  {
    x * Pow(2, s) % WORD
  }

  /** The number held in the first n digits. */
  ghost predicate Holds(s: seq<int>, n: nat, v: int)
  {
    n <= |s| && Normal(s, RADIX, n) && Val(s, RADIX, n) == v
  }

  // ----- N_mul

  lemma {:induction false} HalvesOf(x: nat)
    requires x < RADIX
    ensures And(x, HALF - 1) == x % HALF && And(Shr(x, 28), HALF - 1) == x / HALF < HALF
  {
    Constants();
    AndMask(x, 28);
    AndMask(x / HALF, 28);
    assert x / HALF < HALF;
  }

  method Halve(x: Word) returns (lo: Word, hi: Word)
    requires x < RADIX
    ensures lo == x % HALF && hi == x / HALF
  {
    HalvesOf(x);
    lo, hi := And(x, HALF - 1), And(Shr(x, 28), HALF - 1);
  }

  function HalfOf(x: nat, k: nat): nat
  {
    if k % 2 == 0 then x % HALF else x / HALF
  }

  lemma {:induction false} HalvesValue(a: seq<int>, am: seq<int>)
    requires |a| >= SIZE && Normal(a, RADIX, SIZE) && |am| == 2 * SIZE
    requires forall k :: 0 <= k < 2 * SIZE ==> am[k] == HalfOf(a[k / 2], k)
    ensures Normal(am, HALF, 2 * SIZE) && Val(am, HALF, 2 * SIZE) == Val(a, RADIX, SIZE)
  {
    forall k | 0 <= k < SIZE ensures a[k] == am[2 * k] + am[2 * k + 1] * HALF {
      assert (2 * k) / 2 == k && (2 * k + 1) / 2 == k;
    }
    forall k | 0 <= k < 2 * SIZE ensures 0 <= am[k] < HALF {
      HalvesOf(a[k / 2]);
    }
    ValPairs(am, a, HALF, SIZE);
  }

  method SplitHalves(a: array<Word>) returns (am: array<Word>)
    requires a.Length >= SIZE && Normal(a[..], RADIX, SIZE)
    ensures fresh(am) && am.Length == 2 * SIZE && Normal(am[..], HALF, 2 * SIZE)
    ensures Val(am[..], HALF, 2 * SIZE) == Val(a[..], RADIX, SIZE)
  {
    am := new Word[2 * SIZE];
    var i := 0;
    while i < SIZE
      invariant 0 <= i <= SIZE
      invariant forall k :: 0 <= k < 2 * i ==> am[k] == HalfOf(a[k / 2], k)
    {
      var lo, hi := Halve(a[i]);
      am[2 * i] := lo;
      am[2 * i + 1] := hi;
      i := i + 1;
    }
    HalvesValue(a[..], am[..]);
  }

  /** One row of the schoolbook product, added in at position i. */
  method AccumulateRow(cm: array<Word>, i: nat, x: Word, bm: array<Word>)
    requires cm != bm && cm.Length == 4 * SIZE && bm.Length == 2 * SIZE && i < 2 * SIZE
    requires x < HALF && Normal(bm[..], HALF, 2 * SIZE) && Normal(cm[..], HALF, 4 * SIZE)
    modifies cm
    ensures Val(cm[..], HALF, 4 * SIZE)
         == old(Val(cm[..], HALF, 4 * SIZE)) + x * Pow(HALF, i) * Val(bm[..], HALF, 2 * SIZE)
    ensures forall k :: 0 <= k < 4 * SIZE && !(i <= k < i + 2 * SIZE) ==> cm[k] == old(cm[k])
    ensures forall k :: i <= k < i + 2 * SIZE ==> cm[k] <= RADIX - HALF
  {
    ghost var w, v0 := x * Pow(HALF, i), Val(cm[..], HALF, 4 * SIZE);
    var j := 0;
    while j < 2 * SIZE
      invariant 0 <= j <= 2 * SIZE
      invariant forall k :: 0 <= k < 4 * SIZE && !(i <= k < i + j) ==> cm[k] == old(cm[k])
      invariant forall k :: i <= k < i + j ==> cm[k] <= RADIX - HALF
      invariant Val(cm[..], HALF, 4 * SIZE) == v0 + w * Val(bm[..], HALF, j)
    {
      ghost var was: seq<int> := cm[..];
      var cell: Word := CellSum(cm[i + j], x, bm[j]);
      cm[i + j] := cell;
      assert cm[..] == was[i + j := cell];
      ValUpdate(was, HALF, 4 * SIZE, i + j, cell);
      PowAdd(HALF, i, j);
      RowStep(x, bm[j], Pow(HALF, i), Pow(HALF, j), Val(bm[..], HALF, j), w);
      j := j + 1;
    }
  }

  /** cell += x * y: three half digits never leave the word. */
  function CellSum(cell: nat, x: nat, y: nat): (c: Word)
    requires cell < HALF && x < HALF && y < HALF
    ensures c == cell + x * y <= RADIX - HALF
  {
    MulLe(x, HALF - 1, y);
    MulLe(0, x, y);
    cell + x * y
  }

  lemma {:induction false} RowStep(x: int, y: int, p: int, q: int, v: int, w: int)
    requires w == x * p
    ensures w * (v + y * q) == w * v + (x * y) * (p * q)
  {
    assert w * (y * q) == (x * y) * (p * q);
  }

  /** Moves the excess of cell k over 28 bits into cell k + 1. */
  method CarryCell(cm: array<Word>, k: nat)
    requires k + 1 < cm.Length && cm[k] < RADIX && cm[k + 1] < RADIX
    modifies cm
    ensures cm[k] < HALF && cm[k] == old(cm[k]) % HALF && cm[k + 1] == old(cm[k + 1]) + old(cm[k]) / HALF
    ensures forall i :: 0 <= i < cm.Length && i != k && i != k + 1 ==> cm[i] == old(cm[i])
    ensures Val(cm[..], HALF, cm.Length) == old(Val(cm[..], HALF, cm.Length))
  {
    Constants();
    ghost var s0: seq<int> := cm[..];
    ghost var v := cm[k];
    AndMask(v, 28);
    assert Shr(v, 28) == v / HALF;
    cm[k + 1] := cm[k + 1] + Shr(cm[k], 28);
    ghost var s1: seq<int> := cm[..];
    assert s1 == s0[k + 1 := s0[k + 1] + v / HALF];
    cm[k] := And(cm[k], HALF - 1);
    assert cm[..] == s1[k := v % HALF];
    ValUpdate(s0, HALF, cm.Length, k + 1, s0[k + 1] + v / HALF);
    ValUpdate(s1, HALF, cm.Length, k, v % HALF);
    CarryStep(v, HALF, Pow(HALF, k));
  }

  lemma {:induction false} CarryStep(v: int, r: int, p: int)
    requires r > 0
    ensures (v / r) * (r * p) + (v % r - v) * p == 0
  {
    var q := v / r;
    assert v % r - v == -(q * r);
    assert q * (r * p) == (q * r) * p;
  }

  /** Carry propagation after row i: the value stays, and every cell but the topmost becomes a digit. */
  method NormaliseRow(cm: array<Word>, i: nat)
    requires cm.Length == 4 * SIZE && i < 2 * SIZE
    requires forall k :: i <= k < i + 2 * SIZE ==> cm[k] <= RADIX - HALF
    requires cm[i + 2 * SIZE] == 0
    modifies cm
    ensures Val(cm[..], HALF, 4 * SIZE) == old(Val(cm[..], HALF, 4 * SIZE))
    ensures forall k :: 0 <= k < 4 * SIZE && !(i <= k <= i + 2 * SIZE) ==> cm[k] == old(cm[k])
    ensures forall k :: i <= k < i + 2 * SIZE ==> cm[k] < HALF
  {
    var j := 0;
    while j < 2 * SIZE - 1
      invariant 0 <= j <= 2 * SIZE - 1
      invariant forall k :: 0 <= k < 4 * SIZE && !(i <= k <= i + j) ==> cm[k] == old(cm[k])
      invariant forall k :: i <= k < i + j ==> cm[k] < HALF
      invariant cm[i + j] < RADIX
      invariant Val(cm[..], HALF, 4 * SIZE) == old(Val(cm[..], HALF, 4 * SIZE))
    {
      CarryCell(cm, i + j);
      j := j + 1;
    }
    // the program guards this carry by i + 2 * SIZE < 4 * SIZE, which always holds
    CarryCell(cm, i + 2 * SIZE - 1);
  }

  /** If all cells above k are zero and all below are digits, a value below r^(k+1) makes cell k a digit. */
  lemma {:induction false} TopCellIsDigit(s: seq<int>, r: nat, n: nat, k: nat)
    requires k < n <= |s| && r > 0 && Normal(s, r, k)
    requires s[k] >= 0 && (forall i :: k < i < n ==> s[i] == 0)
    requires Val(s, r, n) < Pow(r, k + 1)
    ensures s[k] < r
  {
    ValTrim(s, r, k + 1, n);
    ValBound(s, r, k);
    PowPositive(r, k);
    if s[k] >= r { MulLe(r, s[k], Pow(r, k)); }
  }

  /** c := a * b, exactly. */
  method Mul(a: array<Word>, b: array<Word>, c: array<Word>)
    requires a.Length >= SIZE && b.Length >= SIZE && c.Length == 2 * SIZE
    requires Normal(a[..], RADIX, SIZE) && Normal(b[..], RADIX, SIZE)
    modifies c
    ensures Holds(c[..], 2 * SIZE, old(Val(a[..], RADIX, SIZE) * Val(b[..], RADIX, SIZE)))
  {
    var am := SplitHalves(a);
    var bm := SplitHalves(b);
    var cm := new Word[4 * SIZE](_ => 0);
    ghost var bv := Val(bm[..], HALF, 2 * SIZE);
    ValTrim(cm[..], HALF, 0, 4 * SIZE);
    ValBound(bm[..], HALF, 2 * SIZE);
    var i := 0;
    while i < 2 * SIZE
      invariant 0 <= i <= 2 * SIZE
      invariant Normal(am[..], HALF, 2 * SIZE) && Normal(bm[..], HALF, 2 * SIZE)
      invariant Val(am[..], HALF, 2 * SIZE) == old(Val(a[..], RADIX, SIZE))
      invariant bv == Val(bm[..], HALF, 2 * SIZE) == old(Val(b[..], RADIX, SIZE))
      invariant Normal(cm[..], HALF, 4 * SIZE)
      invariant forall k :: i + 2 * SIZE <= k < 4 * SIZE ==> cm[k] == 0
      invariant Val(cm[..], HALF, 4 * SIZE) == Val(am[..], HALF, i) * bv
    {
      AccumulateRow(cm, i, am[i], bm);
      NormaliseRow(cm, i);
      RowSum(am[..], HALF, i, bv);
      ValBound(am[..], HALF, i + 1);
      MulLess(Val(am[..], HALF, i + 1), bv, Pow(HALF, i + 1), Pow(HALF, 2 * SIZE));
      PowAdd(HALF, i + 1, 2 * SIZE);
      TopCellIsDigit(cm[..], HALF, 4 * SIZE, i + 2 * SIZE);
      i := i + 1;
    }
    JoinHalves(cm, c);
  }

  lemma {:induction false} RowSum(s: seq<int>, r: nat, i: nat, v: int)
    requires i < |s|
    ensures Val(s, r, i + 1) * v == Val(s, r, i) * v + s[i] * Pow(r, i) * v
  {
  }

  method JoinHalves(cm: array<Word>, c: array<Word>)
    requires cm != c && cm.Length == 4 * SIZE && c.Length == 2 * SIZE && Normal(cm[..], HALF, 4 * SIZE)
    modifies c
    ensures Holds(c[..], 2 * SIZE, Val(cm[..], HALF, 4 * SIZE))
  {
    Constants();
    var i := 0;
    while i < 2 * SIZE
      invariant 0 <= i <= 2 * SIZE
      invariant cm[..] == old(cm[..])
      invariant forall k :: 0 <= k < i ==> 0 <= c[k] < RADIX && c[k] == cm[2 * k] + cm[2 * k + 1] * HALF
    {
      var hi := cm[2 * i + 1];
      assert hi * HALF <= RADIX - HALF;
      assert Shl(hi, 28) == hi * HALF;
      OrDisjoint(hi, hi * HALF, cm[2 * i], 28);
      c[i] := Or(cm[2 * i], Shl(hi, 28));
      i := i + 1;
    }
    ValPairs(cm[..], c[..], HALF, 2 * SIZE);
  }

  // ----- N_bits, N_cmp

  lemma {:induction false} RadixPow(k: nat)
    ensures Pow(RADIX, k) == Pow(2, 56 * k)
  {
    Constants();
    PowPow(2, 56, k);
  }

  method Bits(a: array<Word>, bits0: nat) returns (bits: nat)
    requires bits0 >= 1 && (bits0 - 1) / 56 + 1 <= a.Length && Normal(a[..], RADIX, (bits0 - 1) / 56 + 1)
    ensures Val(a[..], RADIX, (bits0 - 1) / 56 + 1) >= 0
    ensures bits == BitLen(Val(a[..], RADIX, (bits0 - 1) / 56 + 1))
  {
    var size := (bits0 - 1) / 56 + 1;
    ValBound(a[..], RADIX, size);
    bits := size * 56;
    var i := size - 1;
    while i >= 0
      invariant -1 <= i < size && bits == 56 * (i + 1)
      invariant forall k :: i < k < size ==> a[k] == 0
    {
      var ai: nat := a[i];
      if ai == 0 {
        bits := bits - 56;
      } else {
        var j := 0;
        while ai != 0
          invariant j + BitLen(ai) == BitLen(a[i])
        {
          assert Shr(ai, 1) == ai / 2 by { assert Pow(2, 1) == 2; }
          ai := Shr(ai, 1);
          j := j + 1;
        }
        TopBits(a[..], size, i);
        return bits - (56 - j);
      }
      i := i - 1;
    }
    ValTrim(a[..], RADIX, 0, size);
    return 0;
  }

  lemma {:induction false} TopBits(s: seq<int>, n: nat, i: nat)
    requires i < n <= |s| && Normal(s, RADIX, n) && s[i] > 0
    requires forall k :: i < k < n ==> s[k] == 0
    ensures Val(s, RADIX, n) >= 0 && BitLen(Val(s, RADIX, n)) == 56 * i + BitLen(s[i])
    ensures BitLen(s[i]) <= 56
  {
    ValTrim(s, RADIX, i + 1, n);
    ValBound(s, RADIX, i);
    RadixPow(i);
    BitLenTop(Val(s, RADIX, i), s[i], 56 * i);
    ValBound(s, RADIX, n);
    DigitBits(s[i]);
  }

  lemma {:induction false} DigitBits(x: nat)
    requires x < RADIX
    ensures BitLen(x) <= 56
  {
    Constants();
    BitLenBounds(x);
    if BitLen(x) > 56 { PowMonotone(2, 56, BitLen(x) - 1); }
  }

  lemma {:induction false} MoreBits(u: nat, v: nat)
    requires BitLen(u) > BitLen(v)
    ensures u > v
  {
    if u <= v { BitLenMonotone(u, v); }
  }

  /** Numbers that agree above digit i are ordered as their digits i are. */
  lemma {:induction false} DecidedAt(s: seq<int>, t: seq<int>, i: nat, n: nat)
    requires i < n <= |s| && n <= |t| && Normal(s, RADIX, n) && Normal(t, RADIX, n) && s[i] < t[i]
    requires forall k :: i < k < n ==> s[k] == t[k]
    ensures Val(s, RADIX, n) < Val(t, RADIX, n)
  {
    ValDiff(s, t, RADIX, i + 1, n);
    ValLess(s, t, RADIX, i + 1);
  }

  /** A number of at most 56 * k bits occupies the low k digits only. */
  lemma {:induction false} FitsDigits(s: seq<int>, n: nat, v: nat, k: nat)
    requires n <= |s| && Holds(s, n, v) && BitLen(v) <= 56 * k && k <= n
    ensures v < Pow(RADIX, k) && v == Val(s, RADIX, k) && forall i :: k <= i < n ==> s[i] == 0
  {
    RadixPow(k);
    BitLenBounds(v);
    PowMonotone(2, BitLen(v), 56 * k);
    HighDigitsZero(s, RADIX, n, k);
  }

  lemma {:induction false} HoldsBits(s: seq<int>, n: nat, v: nat)
    requires Holds(s, n, v)
    ensures BitLen(v) <= 56 * n
  {
    ValBound(s, RADIX, n);
    RadixPow(n);
    BitLenBounds(v);
    if v > 0 && BitLen(v) > 56 * n { PowMonotone(2, 56 * n, BitLen(v) - 1); }
  }

  function Sign(x: int): int
  {
    if x > 0 then 1 else if x < 0 then -1 else 0
  }

  /** The caller must not pass two zeros: the program would then index from (0 - 1) / 56. */
  method Cmp(a: array<Word>, b: array<Word>, aBits: nat, bBits: nat, ghost av: nat, ghost bv: nat)
    returns (c: int)
    requires Holds(a[..], a.Length, av) && Holds(b[..], b.Length, bv)
    requires aBits == BitLen(av) && bBits == BitLen(bv) && (aBits > 0 || bBits > 0)
    requires aBits <= 56 * a.Length && bBits <= 56 * b.Length
    ensures c == Sign(av - bv)
  {
    if aBits > bBits {
      MoreBits(av, bv);
      return 1;
    }
    if aBits < bBits {
      MoreBits(bv, av);
      return -1;
    }
    var end := (aBits - 1) / 56;
    FitsDigits(a[..], a.Length, av, end + 1);
    FitsDigits(b[..], b.Length, bv, end + 1);
    var i := end;
    while i >= 0
      invariant -1 <= i <= end
      invariant forall k :: i < k <= end ==> a[k] == b[k]
    {
      if a[i] > b[i] {
        DecidedAt(b[..], a[..], i, end + 1);
        return 1;
      }
      if a[i] < b[i] {
        DecidedAt(a[..], b[..], i, end + 1);
        return -1;
      }
      i := i - 1;
    }
    ValDiff(a[..], b[..], RADIX, 0, end + 1);
    return 0;
  }

  // ----- N_shift_right, N_shift_left

  /** The word the shifts build from two neighbouring digits, as a sum; StraddleBits gives it as bit operations. */
  function Straddle(x: nat, y: nat, s: nat): nat
    requires s <= 56
  {
    Shr(x, s) + Shl(y, 56 - s) % RADIX
  }

  lemma {:induction false} StraddleParts(x: nat, y: nat, s: nat) returns (p: nat, z: nat)
    requires s <= 56 && x < RADIX && y < RADIX
    ensures p == Pow(2, 56 - s) && Shr(x, s) < p
    ensures Shl(y, 56 - s) % RADIX == z * p && Shr(x, s) + z * p < RADIX
  {
    SplitRadix(s);
    var q := Pow(2, s);
    p, z := Pow(2, 56 - s), y % q;
    ShlMask(y, 56 - s);
    MulThenMod(y, q, p, RADIX);
    FieldBounds(x, z, q, p, RADIX);
  }

  /** The same word as bit operations: the fields do not overlap and stay within one digit. */
  lemma {:induction false} StraddleBits(x: nat, y: nat, s: nat)
    requires s <= 56 && x < RADIX && y < RADIX
    ensures Straddle(x, y, s) == Or(Shr(x, s), And(Shl(y, 56 - s), RADIX - 1)) < RADIX
    ensures Straddle(x, y, s) == Or(And(Shl(y, 56 - s), RADIX - 1), Shr(x, s))
  {
    var p, z := StraddleParts(x, y, s);
    ShlMask(y, 56 - s);
    OrDisjoint(z, z * p, Shr(x, s), 56 - s);
  }

  /** The two statements of N_shift_right that build one digit. */
  method JoinRight(x: Word, y: Word, s: nat) returns (w: Word)
    requires s <= 56 && x < RADIX && y < RADIX
    ensures w == Straddle(x, y, s) < RADIX
  {
    StraddleBits(x, y, s);
    w := Or(Shr(x, s), And(Shl(y, 56 - s), RADIX - 1));
  }

  lemma {:induction false} ShlMask(y: nat, s: nat)
    ensures And(Shl(y, s), RADIX - 1) == Shl(y, s) % RADIX == y * Pow(2, s) % RADIX
  {
    Constants();
    AndMask(Shl(y, s), 56);
    var v := y * Pow(2, s);
    ModThenDiv(v, RADIX, 256, WORD);
  }

  /** Splitting the radix at bit s. */
  lemma {:induction false} SplitRadix(s: nat)
    requires s <= 56
    ensures Pow(2, s) > 0 && Pow(2, 56 - s) > 0 && RADIX == Pow(2, 56 - s) * Pow(2, s)
  {
    Constants();
    PowPositive(2, s);
    PowPositive(2, 56 - s);
    PowAdd(2, 56 - s, s);
  }

  lemma {:induction false} StraddleDigit(w: nat, s: nat)
    requires s <= 56
    ensures Pow(2, s) > 0
    ensures Straddle(w % RADIX, w / RADIX % RADIX, s) == w / Pow(2, s) % RADIX
  {
    SplitRadix(s);
    Window(w, Pow(2, s), Pow(2, 56 - s), RADIX);
    ShlMask(w / RADIX % RADIX, 56 - s);
  }

  /** Neighbouring digits of v are neighbouring digits of v shifted down to the lower one. */
  lemma {:induction false} DigitPair(v: nat, k: nat)
    ensures Pow(RADIX, k) > 0
    ensures DigitAt(v, RADIX, k) == v / Pow(RADIX, k) % RADIX
    ensures DigitAt(v, RADIX, k + 1) == v / Pow(RADIX, k) / RADIX % RADIX
  {
    PowPositive(RADIX, k);
    DivTwice(v, Pow(RADIX, k), RADIX);
    assert Pow(RADIX, k + 1) == Pow(RADIX, k) * RADIX;
  }

  lemma {:induction false} RightDigit(v: nat, index: nat, offset: nat, i: nat)
    requires offset < 56
    ensures Pow(2, 56 * index + offset) > 0
    ensures Straddle(DigitAt(v, RADIX, i + index), DigitAt(v, RADIX, i + index + 1), offset)
         == DigitAt(v / Pow(2, 56 * index + offset), RADIX, i)
  {
    var shift := 56 * index + offset;
    PowPositive(2, shift);
    DigitPair(v, i + index);
    var w := v / Pow(RADIX, i + index);
    StraddleDigit(w, offset);
    // v >> (56 * index) >> offset >> (56 * i), in either order
    DivTwice(v, Pow(RADIX, i + index), Pow(2, offset));
    PowPositive(RADIX, i);
    DivTwice(v, Pow(2, shift), Pow(RADIX, i));
    assert Pow(RADIX, i + index) * Pow(2, offset) == Pow(2, shift) * Pow(RADIX, i) by {
      RadixPow(i + index);
      RadixPow(i);
      PowAdd(2, 56 * (i + index), offset);
      PowAdd(2, shift, 56 * i);
      assert 56 * (i + index) + offset == shift + 56 * i;
    }
  }

  lemma {:induction false} ShiftedBits(v: nat, shift: nat)
    requires shift <= BitLen(v)
    ensures Pow(2, shift) > 0 && BitLen(v / Pow(2, shift)) == BitLen(v) - shift
  {
    PowPositive(2, shift);
    if shift == 0 {
    } else {
      ShiftedBits(v / 2, shift - 1);
      DivTwice(v, 2, Pow(2, shift - 1));
    }
  }

  /** Cells that are the digits of v hold v, if v fits. */
  lemma {:induction false} FromDigits(s: seq<int>, n: nat, v: nat)
    requires n <= |s| && BitLen(v) <= 56 * n
    requires forall k :: 0 <= k < n ==> s[k] == DigitAt(v, RADIX, k)
    ensures Holds(s, n, v)
  {
    DigitsVal(s, RADIX, n, v);
    RadixPow(n);
    BitLenBounds(v);
    PowMonotone(2, BitLen(v), 56 * n);
    DivModUnique(v, Pow(RADIX, n), 0, v);
  }

  lemma {:induction false} NoDigit(v: nat, k: nat)
    requires BitLen(v) <= 56 * k
    ensures DigitAt(v, RADIX, k) == 0
  {
    RadixPow(k);
    PowPositive(RADIX, k);
    BitLenBounds(v);
    PowMonotone(2, BitLen(v), 56 * k);
    DivModUnique(v, Pow(RADIX, k), 0, v);
  }

  /** The digit sequence of v. */
  ghost function DigitSeq(v: nat, n: nat): (s: seq<Word>)
    ensures |s| == n && forall k :: 0 <= k < n ==> s[k] == DigitAt(v, RADIX, k)
  {
    seq(n, k requires 0 <= k < n => DigitAt(v, RADIX, k))
  }

  ghost function CellAt(s: seq<Word>, k: nat): Word
  {
    if k < |s| then s[k] else 0
  }

  /** The word moves of a right shift: each digit of d' straddles two digits of d. */
  method MoveDown(a: array<Word>, index: nat, offset: nat, size: nat, oldSize: nat,
                  ghost d: seq<Word>, ghost d': seq<Word>)
    requires a.Length == |d'| && a[..] == d && 1 <= size <= oldSize <= a.Length && offset < 56
    requires size + index <= a.Length
    requires forall i :: 0 <= i < size ==> d'[i] == Straddle(CellAt(d, i + index), CellAt(d, i + index + 1), offset)
    requires forall i :: size <= i < a.Length ==> d'[i] == 0
    requires forall i :: oldSize <= i < a.Length ==> d[i] == 0
    requires Normal(d, RADIX, |d|)
    modifies a
    ensures a[..] == d'
  {
    var i := 0;
    while i < size - 1
      invariant 0 <= i <= size - 1
      invariant forall k :: 0 <= k < i ==> a[k] == d'[k]
      invariant forall k :: i <= k < a.Length ==> a[k] == d[k]
    {
      assert d'[i] == Straddle(CellAt(d, i + index), CellAt(d, i + index + 1), offset);
      var w := JoinRight(a[i + index], a[i + index + 1], offset);
      a[i] := w;
      i := i + 1;
    }
    assert d'[i] == Straddle(CellAt(d, i + index), CellAt(d, i + index + 1), offset);
    var next := if i + index + 1 < a.Length then a[i + index + 1] else 0;
    var w := JoinRight(a[i + index], next, offset);
    a[i] := w;
    var j := 0;
    while j < oldSize - size
      invariant 0 <= j <= oldSize - size
      invariant forall k :: 0 <= k <= i + j ==> a[k] == d'[k]
      invariant forall k :: i + j < k < a.Length ==> a[k] == d[k]
    {
      a[i + j + 1] := 0;
      j := j + 1;
    }
  }

  /** a := a >> shift; the result keeps at least one bit. */
  method ShiftRight(a: array<Word>, aBits: nat, shift: nat, ghost v: nat) returns (bits: nat)
    requires a.Length == 2 * SIZE && Holds(a[..], 2 * SIZE, v) && aBits == BitLen(v) <= 56 * 2 * SIZE
    requires shift == 0 || shift < aBits
    modifies a
    ensures Pow(2, shift) > 0 && Holds(a[..], 2 * SIZE, v / Pow(2, shift))
    ensures bits == aBits - shift
  {
    PowPositive(2, shift);
    if shift == 0 {
      assert Pow(2, 0) == 1;
      return aBits;
    }
    var oldSize := (aBits - 1) / 56 + 1;
    bits := aBits - shift;
    var size := (bits - 1) / 56 + 1;
    ghost var v': nat := v / Pow(2, shift);
    RightShiftDigits(a[..], v, v', shift, size, oldSize);
    MoveDown(a, shift / 56, shift % 56, size, oldSize, DigitSeq(v, 2 * SIZE), DigitSeq(v', 2 * SIZE));
    ShiftedBits(v, shift);
    FromDigits(a[..], 2 * SIZE, v');
  }

  lemma {:induction false} RightShiftDigits(s: seq<Word>, v: nat, v': nat, shift: nat, size: nat, oldSize: nat)
    requires Holds(s, 2 * SIZE, v) && |s| == 2 * SIZE && BitLen(v) <= 56 * 2 * SIZE
    requires 0 < shift < BitLen(v) && Pow(2, shift) > 0 && v' == v / Pow(2, shift)
    requires oldSize == (BitLen(v) - 1) / 56 + 1 && size == (BitLen(v) - shift - 1) / 56 + 1
    ensures s == DigitSeq(v, 2 * SIZE)
    ensures forall i :: 0 <= i < size ==>
      DigitAt(v', RADIX, i) == Straddle(CellAt(s, i + shift / 56), CellAt(s, i + shift / 56 + 1), shift % 56)
    ensures forall k :: oldSize <= k < 2 * SIZE ==> s[k] == 0
    ensures forall k :: size <= k < 2 * SIZE ==> DigitAt(v', RADIX, k) == 0
  {
    forall k | 0 <= k < 2 * SIZE ensures s[k] == DigitAt(v, RADIX, k) { ValDigit(s, RADIX, 2 * SIZE, k); }
    forall k | oldSize <= k < 2 * SIZE ensures s[k] == 0 { NoDigit(v, k); }
    ShiftedBits(v, shift);
    forall k | size <= k < 2 * SIZE ensures DigitAt(v', RADIX, k) == 0 { NoDigit(v', k); }
    NoDigit(v, 2 * SIZE);
    forall i | 0 <= i < size
      ensures DigitAt(v', RADIX, i) == Straddle(CellAt(s, i + shift / 56), CellAt(s, i + shift / 56 + 1), shift % 56)
    {
      RightDigit(v, shift / 56, shift % 56, i);
    }
  }
}
