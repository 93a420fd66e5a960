/** The remainder by shifted subtraction, and modular exponentiation on top of it. */
module NaturalMod {
  import opened Arith
  import Squarefree
  import opened Digits
  import opened Natural

  // ----- N_shift_left

  lemma {:induction false} CancelFactor(v: nat, c: nat, x: nat)
    requires c > 0 && x > 0
    ensures x * c > 0 && (v * c) / (x * c) == v / x
  {
    var q, r := v / x, v % x;
    assert v * c == q * (x * c) + r * c by { assert v == q * x + r; }
    TopDigit(r, x, c);
    DivModUnique(v * c, x * c, q, r * c);
  }

  lemma {:induction false} LeftDigit(v: nat, index: nat, offset: nat, k: nat)
    requires offset < 56 && k >= 1
    ensures Straddle(DigitAt(v, RADIX, k - 1), DigitAt(v, RADIX, k), 56 - offset)
         == DigitAt(Scale(v, 56 * index + offset), RADIX, index + k)
  {
    var shift := 56 * index + offset;
    var p, c := Pow(2, 56 - offset), Pow(2, shift);
    DigitPair(v, k - 1);
    StraddleDigit(v / Pow(RADIX, k - 1), 56 - offset);
    PowPositive(2, shift);
    DivTwice(v, Pow(RADIX, k - 1), p);
    CancelFactor(v, c, Pow(RADIX, k - 1) * p);
    assert Pow(RADIX, index + k) == (Pow(RADIX, k - 1) * p) * c by {
      RadixPow(index + k);
      RadixPow(k - 1);
      PowAdd(2, 56 * (k - 1), 56 - offset);
      PowAdd(2, 56 * (k - 1) + 56 - offset, shift);
      assert 56 * (k - 1) + 56 - offset + shift == 56 * (index + k);
    }
  }

  lemma {:induction false} DropWholeDigits(v: nat, index: nat, offset: nat)
    ensures DigitAt(Scale(v, 56 * index + offset), RADIX, index) == Scale(v, offset) % RADIX
  {
    var u, q, c := Scale(v, offset), Pow(2, offset), Pow(RADIX, index);
    PowPositive(RADIX, index);
    RadixPow(index);
    PowAdd(2, 56 * index, offset);
    assert v * (c * q) == (v * q) * c;
    DivModUnique(u * c, c, u, 0);
  }

  lemma {:induction false} LowestDigit(v: nat)
    ensures DigitAt(v, RADIX, 0) == v % RADIX
  {
    assert Pow(RADIX, 0) == 1;
  }

  lemma {:induction false} ShiftedResidue(v: nat, offset: nat)
    requires offset < 56
    ensures Shl(v % RADIX, offset) % RADIX == Scale(v, offset) % RADIX
  {
    ShlMask(v % RADIX, offset);
    CongruentMul(v % RADIX, v, Pow(2, offset), Pow(2, offset), RADIX);
  }

  lemma {:induction false} StraddleZero(x: nat, offset: nat)
    requires offset < 56 && x < RADIX
    ensures Straddle(0, x, 56 - offset) == Shl(x, offset) % RADIX
  {
    PowPositive(2, 56 - offset);
    DivModUnique(0, Pow(2, 56 - offset), 0, 0);
  }

  lemma {:induction false} LowestLeftDigit(v: nat, index: nat, offset: nat)
    requires offset < 56
    ensures Straddle(0, DigitAt(v, RADIX, 0), 56 - offset) == DigitAt(Scale(v, 56 * index + offset), RADIX, index)
  {
    hide Straddle, DigitAt, Scale, Shl, Pow;
    DropWholeDigits(v, index, offset);
    LowestDigit(v);
    StraddleZero(v % RADIX, offset);
    ShiftedResidue(v, offset);
  }

  lemma {:induction false} ZeroLeftDigit(v: nat, index: nat, offset: nat, i: nat)
    requires offset < 56 && i < index
    ensures DigitAt(Scale(v, 56 * index + offset), RADIX, i) == 0
  {
    var c := Pow(RADIX, i);
    var m := Scale(v, 56 * (index - i - 1) + offset);
    PowPositive(RADIX, i);
    assert Scale(v, 56 * index + offset) == (m * RADIX) * c by {
      RadixPow(i + 1);
      assert Pow(RADIX, i + 1) == RADIX * c;
      PowAdd(2, 56 * (i + 1), 56 * (index - i - 1) + offset);
      assert 56 * (i + 1) + (56 * (index - i - 1) + offset) == 56 * index + offset;
      var u := Pow(2, 56 * (index - i - 1) + offset);
      assert v * (RADIX * c * u) == ((v * u) * RADIX) * c;
    }
    DivModUnique((m * RADIX) * c, c, m * RADIX, 0);
    DivModUnique(m * RADIX, RADIX, m, 0);
  }

  /** The two statements of N_shift_left that build one digit. */
  method JoinLeft(x: Word, y: Word, offset: nat) returns (w: Word)
    requires offset < 56 && x < RADIX && y < RADIX
    ensures w == Straddle(x, y, 56 - offset) < RADIX
  {
    StraddleBits(x, y, 56 - offset);
    w := Or(And(Shl(y, offset), RADIX - 1), Shr(x, 56 - offset));
  }

  ghost function CellBelow(s: seq<Word>, k: int): Word
  {
    if 0 <= k < |s| then s[k] else 0
  }

  method MoveUp(a: array<Word>, index: nat, offset: nat, size: nat, ghost d: seq<Word>, ghost d': seq<Word>)
    requires a.Length == |d'| && a[..] == d && index < size <= a.Length && offset < 56 && Normal(d, RADIX, |d|)
    requires forall i :: index <= i < size ==>
      d'[i] == Straddle(CellBelow(d, i - index - 1), CellBelow(d, i - index), 56 - offset)
    requires forall i :: 0 <= i < a.Length && !(index <= i < size) ==> d'[i] == 0
    requires forall i :: size <= i < a.Length ==> d[i] == 0
    modifies a
    ensures a[..] == d'
  {
    var i: int := size - 1;
    while i - index >= 1
      invariant index <= i < size
      invariant forall k :: i < k < a.Length ==> a[k] == d'[k]
      invariant forall k :: 0 <= k <= i ==> a[k] == d[k]
    {
      assert d'[i] == Straddle(CellBelow(d, i - index - 1), CellBelow(d, i - index), 56 - offset);
      var w := JoinLeft(a[i - index - 1], a[i - index], offset);
      a[i] := w;
      i := i - 1;
    }
    assert d'[i] == Straddle(CellBelow(d, i - index - 1), CellBelow(d, i - index), 56 - offset);
    var w := JoinLeft(0, a[i - index], offset);
    a[i] := w;
    i := i - 1;
    while i >= 0
      invariant -1 <= i < index
      invariant forall k :: i < k < a.Length ==> a[k] == d'[k]
    {
      a[i] := 0;
      i := i - 1;
    }
  }

  lemma {:induction false} LeftShiftDigit(s: seq<Word>, v: nat, index: nat, offset: nat, i: nat)
    requires offset < 56 && s == DigitSeq(v, 2 * SIZE) && index <= i < 2 * SIZE
    ensures DigitAt(Scale(v, 56 * index + offset), RADIX, i)
         == Straddle(CellBelow(s, i - index - 1), CellBelow(s, i - index), 56 - offset)
  {
    if i == index { LowestLeftDigit(v, index, offset); } else { LeftDigit(v, index, offset, i - index); }
  }

  lemma {:induction false} LeftShiftDigits(s: seq<Word>, v: nat, v': nat, index: nat, offset: nat, size: nat)
    requires |s| == 2 * SIZE && Holds(s, 2 * SIZE, v) && offset < 56
    requires v' == Scale(v, 56 * index + offset) && BitLen(v) <= BitLen(v') <= 56 * size
    requires index < size <= 2 * SIZE
    ensures s == DigitSeq(v, 2 * SIZE)
    ensures forall i :: index <= i < size ==>
      DigitAt(v', RADIX, i) == Straddle(CellBelow(s, i - index - 1), CellBelow(s, i - index), 56 - offset)
    ensures forall i :: 0 <= i < 2 * SIZE && !(index <= i < size) ==> DigitAt(v', RADIX, i) == 0
    ensures forall i :: size <= i < 2 * SIZE ==> s[i] == 0
  {
    forall k | 0 <= k < 2 * SIZE ensures s[k] == DigitAt(v, RADIX, k) { ValDigit(s, RADIX, 2 * SIZE, k); }
    assert s == DigitSeq(v, 2 * SIZE);
    forall i | index <= i < size
      ensures DigitAt(v', RADIX, i) == Straddle(CellBelow(s, i - index - 1), CellBelow(s, i - index), 56 - offset)
    {
      LeftShiftDigit(s, v, index, offset, i);
    }
    forall i | 0 <= i < 2 * SIZE && !(index <= i < size) ensures DigitAt(v', RADIX, i) == 0 {
      if i < index { ZeroLeftDigit(v, index, offset, i); } else { NoDigit(v', i); }
    }
    forall i | size <= i < 2 * SIZE ensures s[i] == 0 { NoDigit(v, i); }
  }

  /** a := a << shift, with room for every bit. */
  method ShiftLeft(a: array<Word>, aBits: nat, shift: nat, ghost v: nat) returns (bits: nat)
    requires a.Length == 2 * SIZE && Holds(a[..], 2 * SIZE, v) && v > 0 && aBits == BitLen(v)
    requires aBits + shift <= 56 * 2 * SIZE
    modifies a
    ensures Holds(a[..], 2 * SIZE, Scale(v, shift))
    ensures bits == aBits + shift == BitLen(Scale(v, shift))
  {
    BitLenShift(v, shift);
    if shift == 0 {
      assert Scale(v, 0) == v;
      return aBits;
    }
    bits := aBits + shift;
    var size := (bits - 1) / 56 + 1;
    ghost var v' := Scale(v, shift);
    var index, offset := shift / 56, shift % 56;
    BitLenBounds(v);
    LeftShiftDigits(a[..], v, v', index, offset, size);
    MoveUp(a, index, offset, size, DigitSeq(v, 2 * SIZE), DigitSeq(v', 2 * SIZE));
    FromDigits(a[..], 2 * SIZE, v');
  }

  // ----- N_sub

  /** The word read as a two's complement number. */
  function Signed(x: Word): int
  {
    if x < WORD / 2 then x else x - WORD
  }

  /** Storing a signed difference in a word and reading it back, and the carry above 56 bits. */
  lemma {:induction false} SignedWord(y: int)
    requires -RADIX <= y < RADIX
    ensures Signed(y % WORD) == y && -1 <= y / RADIX <= 0
    ensures And(y % WORD, RADIX - 1) == y % RADIX
  {
    Constants();
    AndMask(y % WORD, 56);
    assert y % WORD == if y >= 0 then y else y + WORD;
    assert RADIX * 256 == WORD;
    if y < 0 { AddMultiple(y, 256, RADIX); }
  }

  /** After i digits, s is the difference of the low parts up to an outstanding borrow c. */
  ghost predicate Balanced(n0: seq<int>, d0: seq<int>, s: seq<int>, i: nat, c: int)
    requires i <= |n0| && i <= |d0| && i <= |s|
  {
    Val(n0, RADIX, i) - Val(d0, RADIX, i) == Val(s, RADIX, i) + c * Pow(RADIX, i)
  }

  lemma {:induction false} BorrowStep(n0: seq<int>, d0: seq<int>, s: seq<int>, t: seq<int>, i: nat, c: int)
    requires i < |n0| && i < |d0| && i < |s| && i < |t| && Balanced(n0, d0, s, i, c)
    requires t[i] == (n0[i] - d0[i] + c) % RADIX && forall k :: 0 <= k < i ==> t[k] == s[k]
    ensures Balanced(n0, d0, t, i + 1, (n0[i] - d0[i] + c) / RADIX)
  {
    ValCongruent(s, t, RADIX, i);
    BorrowAlgebra(c, n0[i], d0[i], n0[i] - d0[i] + c, RADIX, Pow(RADIX, i));
  }

  lemma {:induction false} BorrowAlgebra(c: int, x: int, d: int, y: int, r: int, p: int)
    requires r > 0 && y == x - d + c
    ensures c * p + x * p - d * p == (y % r) * p + (y / r) * (r * p)
  {
    var q, m := y / r, y % r;
    assert c * p + x * p - d * p == y * p;
    assert (q * r + m) * p == q * (r * p) + m * p;
  }

  method SubtractCells(n: array<Word>, d: array<Word>, size: nat)
    requires n != d && size <= n.Length && size <= d.Length
    modifies n
    ensures forall k :: 0 <= k < size ==> n[k] == (old(n[k]) - d[k]) % WORD
    ensures forall k :: size <= k < n.Length ==> n[k] == old(n[k])
  {
    var i := 0;
    while i < size
      invariant 0 <= i <= size
      invariant forall k :: 0 <= k < i ==> n[k] == (old(n[k]) - d[k]) % WORD
      invariant forall k :: i <= k < n.Length ==> n[k] == old(n[k])
    {
      n[i] := (n[i] - d[i]) % WORD;
      i := i + 1;
    }
  }

  /** Moves the borrow of cell i, which holds the difference y, into cell i + 1, which holds z. */
  method Borrow(n: array<Word>, i: nat, ghost y: int, ghost z: int)
    requires i + 1 < n.Length && n[i] == y % WORD && n[i + 1] == z % WORD
    requires -RADIX <= y < RADIX && -RADIX <= z < RADIX
    modifies n
    ensures n[i] == y % RADIX && n[i + 1] == (z + y / RADIX) % WORD && -1 <= y / RADIX <= 0
    ensures forall k :: 0 <= k < n.Length && k != i && k != i + 1 ==> n[k] == old(n[k])
  {
    SignedWord(y);
    SignedWord(z);
    var carry := Signed(n[i]) / RADIX;
    n[i + 1] := (Signed(n[i + 1]) + carry) % WORD;
    n[i] := And(n[i], RADIX - 1);
  }

  /** The second loop of N_sub: turns cellwise differences into digits. */
  method PropagateBorrow(n: array<Word>, size: nat, ghost n0: seq<int>, ghost d0: seq<int>)
    requires 1 <= size <= n.Length && size <= |n0| && size <= |d0|
    requires Normal(n0, RADIX, size) && Normal(d0, RADIX, size) && Val(n0, RADIX, size) >= Val(d0, RADIX, size)
    requires forall k :: 0 <= k < size ==> n[k] == (n0[k] - d0[k]) % WORD
    modifies n
    ensures Normal(n[..], RADIX, size) && Val(n[..], RADIX, size) == Val(n0, RADIX, size) - Val(d0, RADIX, size)
    ensures forall k :: size <= k < n.Length ==> n[k] == old(n[k])
  {
    var i := 0;
    ghost var c := 0;
    while i < size - 1
      invariant 0 <= i <= size - 1 && -1 <= c <= 0
      invariant Normal(n[..], RADIX, i) && Balanced(n0, d0, n[..], i, c)
      invariant n[i] == (n0[i] - d0[i] + c) % WORD
      invariant forall k :: i < k < size ==> n[k] == (n0[k] - d0[k]) % WORD
      invariant forall k :: size <= k < n.Length ==> n[k] == old(n[k])
    {
      ghost var y, was := n0[i] - d0[i] + c, n[..];
      Borrow(n, i, y, n0[i + 1] - d0[i + 1]);
      BorrowStep(n0, d0, was, n[..], i, c);
      c := y / RADIX;
      i := i + 1;
    }
    LastCell(n, i, n0, d0, c);
  }

  method LastCell(n: array<Word>, i: nat, ghost n0: seq<int>, ghost d0: seq<int>, ghost c: int)
    requires i < n.Length && i < |n0| && i < |d0| && Normal(n0, RADIX, i + 1) && Normal(d0, RADIX, i + 1)
    requires Val(n0, RADIX, i + 1) >= Val(d0, RADIX, i + 1) && -1 <= c <= 0
    requires Normal(n[..], RADIX, i) && Balanced(n0, d0, n[..], i, c) && n[i] == (n0[i] - d0[i] + c) % WORD
    modifies n
    ensures Normal(n[..], RADIX, i + 1)
    ensures Val(n[..], RADIX, i + 1) == Val(n0, RADIX, i + 1) - Val(d0, RADIX, i + 1)
    ensures forall k :: 0 <= k < n.Length && k != i ==> n[k] == old(n[k])
  {
    ghost var was := n[..];
    SignedWord(n0[i] - d0[i] + c);
    n[i] := And(n[i], RADIX - 1);
    BorrowStep(n0, d0, was, n[..], i, c);
    LastBorrow(n0, d0, n[..], i + 1, (n0[i] - d0[i] + c) / RADIX);
  }

  /** n := n - d, borrowing through two's complement words. */
  method Sub(n: array<Word>, nBits: nat, d: array<Word>, ghost nv: nat, ghost dv: nat)
    requires n != d && n.Length == d.Length == 2 * SIZE
    requires Holds(n[..], 2 * SIZE, nv) && Holds(d[..], 2 * SIZE, dv) && dv <= nv
    requires 1 <= nBits == BitLen(nv) <= 56 * 2 * SIZE
    modifies n
    ensures Holds(n[..], 2 * SIZE, nv - dv)
  {
    var size := (nBits - 1) / 56 + 1;
    ghost var n0, d0 := n[..], d[..];
    FitsDigits(n0, 2 * SIZE, nv, size);
    BitLenMonotone(dv, nv);
    FitsDigits(d0, 2 * SIZE, dv, size);
    SubtractCells(n, d, size);
    PropagateBorrow(n, size, n0, d0);
    ValTrim(n[..], RADIX, size, 2 * SIZE);
  }

  /** No borrow is left over when the difference is not negative. */
  lemma {:induction false} LastBorrow(n0: seq<int>, d0: seq<int>, s: seq<int>, i: nat, c: int)
    requires i <= |n0| && i <= |d0| && i <= |s| && Balanced(n0, d0, s, i, c) && Normal(s, RADIX, i)
    requires Val(n0, RADIX, i) >= Val(d0, RADIX, i) && c <= 0
    ensures Val(s, RADIX, i) == Val(n0, RADIX, i) - Val(d0, RADIX, i)
  {
    ValBound(s, RADIX, i);
    MulLe(c, if c < 0 then -1 else 0, Pow(RADIX, i));
  }

  // ----- N_mod

  /** What N_mod leaves: the remainder, except that an odd multiple of b ends at b instead of 0. */
  function ModResult(a: nat, b: nat): nat
    requires b > 0
  {
    if a % b == 0 && a / b % 2 == 1 then b else a % b
  }

  /** The outcome is congruent and at most b; it is the remainder exactly when a is no odd multiple of b. */
  lemma {:induction false} ModResultCorrect(a: nat, b: nat)
    requires b > 0
    ensures ModResult(a, b) <= b && ModResult(a, b) % b == a % b
    ensures ModResult(a, b) == a % b <==> !(a % b == 0 && a / b % 2 == 1)
  {
    DivModUnique(b, b, 1, 0);
    DivModUnique(a % b, b, 0, a % b);
  }

  /** Subtracting the largest b * 2^k keeps the outcome. */
  lemma {:induction false} SubtractKeepsResult(n: nat, b: nat, k: nat)
    requires b > 0 && b < n && Scale(b, k) <= n < 2 * Scale(b, k)
    ensures ModResult(n - Scale(b, k), b) == ModResult(n, b)
  {
    var p: int := Pow(2, k);
    AddMultiple(n, -p, b);
    assert n + -p * b == n - Scale(b, k);
    if k == 0 {
      DivModUnique(n, b, 1, n - b);
    } else {
      var h: int := Pow(2, k - 1);
      assert p == 2 * h;
      AddMultiple(n / b, -h, 2);
    }
  }

  lemma {:induction false} StopKeepsResult(n: nat, b: nat)
    requires b > 0 && n <= b
    ensures ModResult(n, b) == n
  {
    if n == b { DivModUnique(b, b, 1, 0); } else { DivModUnique(n, b, 0, n); }
  }

  /** Shifting b * 2^k right by s <= k drops no set bit. */
  lemma {:induction false} ShiftBack(b: nat, k: nat, s: nat)
    requires s <= k && b > 0
    ensures Pow(2, s) > 0 && Scale(b, k) / Pow(2, s) == Scale(b, k - s)
    ensures BitLen(Scale(b, k)) == BitLen(b) + k && BitLen(Scale(b, k - s)) == BitLen(b) + k - s
  {
    PowPositive(2, s);
    PowAdd(2, k - s, s);
    var x, y := Pow(2, k - s), Pow(2, s);
    assert b * (x * y) == (b * x) * y;
    DivModUnique(Scale(b, k), y, b * x, 0);
    BitLenShift(b, k);
    BitLenShift(b, k - s);
  }

  lemma {:induction false} SameBits(u: nat, v: nat)
    requires BitLen(u) == BitLen(v) && v > 1
    ensures v < 2 * u && u < 2 * v && BitLen(u) > 1
  {
    BitLenBounds(u);
    BitLenBounds(v);
    assert BitLen(v) == 1 + BitLen(v / 2) && BitLen(v / 2) >= 1;
  }

  lemma {:induction false} ShiftByOne(b: nat, k: nat, n: nat)
    requires 0 < b < n < Scale(b, k)
    ensures k >= 1 && Pow(2, 1) == 2 && Scale(b, k) / Pow(2, 1) == Scale(b, k - 1) && 2 * Scale(b, k - 1) == Scale(b, k)
    ensures BitLen(Scale(b, k - 1)) == BitLen(Scale(b, k)) - 1
  {
    assert Scale(b, 0) == b;
    ShiftBack(b, k, 1);
    assert Pow(2, k) == 2 * Pow(2, k - 1);
    assert 2 * (b * Pow(2, k - 1)) == b * (2 * Pow(2, k - 1));
  }

  /** d := b * 2^k with as many bits as n. */
  method AlignBits(d: array<Word>, dBits: nat, nBits: nat, ghost bv: nat, ghost k0: nat)
    returns (bits: nat, ghost k: nat)
    requires d.Length == 2 * SIZE && bv > 0 && Holds(d[..], 2 * SIZE, Scale(bv, k0))
    requires 0 < BitLen(bv) <= nBits <= dBits == BitLen(Scale(bv, k0))
    modifies d
    ensures Holds(d[..], 2 * SIZE, Scale(bv, k)) && bits == BitLen(Scale(bv, k)) == nBits
  {
    bits, k := dBits, k0;
    HoldsBits(d[..], 2 * SIZE, Scale(bv, k));
    if bits > nBits {
      BitLenShift(bv, k);
      ShiftBack(bv, k, bits - nBits);
      k := k - (bits - nBits);
      bits := ShiftRight(d, bits, bits - nBits, Scale(bv, k0));
    }
  }

  /** d := the largest b * 2^k not above n, by one more shift if needed. */
  method AlignOrder(n: array<Word>, d: array<Word>, nBits: nat, dBits: nat,
                    ghost nv: nat, ghost bv: nat, ghost k0: nat)
    returns (bits: nat, ghost k: nat)
    requires n != d && n.Length == d.Length == 2 * SIZE && 0 < bv < nv
    requires Holds(n[..], 2 * SIZE, nv) && Holds(d[..], 2 * SIZE, Scale(bv, k0))
    requires nBits == BitLen(nv) == dBits == BitLen(Scale(bv, k0))
    modifies d
    ensures Holds(d[..], 2 * SIZE, Scale(bv, k)) && bits == BitLen(Scale(bv, k))
    ensures Scale(bv, k) <= nv < 2 * Scale(bv, k)
  {
    bits, k := dBits, k0;
    ghost var dv := Scale(bv, k);
    HoldsBits(n[..], 2 * SIZE, nv);
    SameBits(dv, nv);
    var order := Cmp(d, n, bits, nBits, dv, nv);
    if order > 0 {
      ShiftByOne(bv, k, nv);
      bits := ShiftRight(d, bits, 1, dv);
      k := k - 1;
    }
  }

  lemma {:induction false} PlacedHigh(s: seq<int>, b: seq<int>, bv: nat, n: nat)
    requires |s| == 2 * n && |b| == n && Holds(b, n, bv)
    requires (forall i :: 0 <= i < n ==> s[i] == 0) && s[n..] == b
    ensures Holds(s, 2 * n, Scale(bv, 56 * n))
  {
    ValSplit(s, RADIX, n, 2 * n);
    ValTrim(s, RADIX, 0, n);
    RadixPow(n);
    forall i | 0 <= i < 2 * n ensures 0 <= s[i] < RADIX { if i >= n { assert s[i] == s[n..][i - n]; } }
  }

  /** d := b placed in the high half, then shifted up until it has at least nBits bits. */
  method PlaceDivisor(b: array<Word>, nBits: nat, ghost bv: nat) returns (d: array<Word>, dBits: nat, ghost k: nat)
    requires b.Length == SIZE && Holds(b[..], SIZE, bv) && bv > 0 && nBits <= 56 * 2 * SIZE
    ensures fresh(d) && d.Length == 2 * SIZE && Holds(d[..], 2 * SIZE, Scale(bv, k))
    ensures dBits == BitLen(Scale(bv, k)) >= nBits
  {
    ghost var half: nat := SIZE;
    d := new Word[2 * SIZE];
    forall i | 0 <= i < 2 * SIZE { d[i] := if i < SIZE then 0 else b[i - SIZE]; }
    assert d[..][SIZE..] == b[..] == old(b[..]);
    k := 56 * half;
    PlacedHigh(d[..], b[..], bv, half);
    dBits := Bits(d, 2 * SIZE * 56);
    if dBits < nBits {
      ghost var s := nBits - dBits;
      PowPositive(2, k);
      MulLe(1, bv, Pow(2, k));
      ScaleTwice(bv, k, s);
      dBits := ShiftLeft(d, dBits, nBits - dBits, Scale(bv, k));
      k := k + s;
    }
  }

  /** c := a mod b by shifted subtraction; c's digits above SIZE are not touched. */
  method Mod(a: array<Word>, b: array<Word>, c: array<Word>, ghost av: nat, ghost bv: nat)
    requires a.Length == 2 * SIZE && b.Length == SIZE && c.Length >= SIZE
    requires Holds(a[..], 2 * SIZE, av) && Holds(b[..], SIZE, bv) && bv > 0
    modifies c
    ensures Holds(c[..], SIZE, ModResult(av, bv))
  {
    ghost var bs := b[..];
    var n := new Word[2 * SIZE](i requires 0 <= i < a.Length reads a => a[i]);
    assert n[..] == a[..] && b[..] == bs;
    ghost var nv: nat, k: nat := av, 0;
    HoldsBits(n[..], 2 * SIZE, nv);
    var nBits := Bits(n, 2 * SIZE * 56);
    var d, dBits;
    d, dBits, k := PlaceDivisor(b, nBits, bv);
    assert b[..] == bs;
    var bBits := Bits(b, SIZE * 56);
    var order := CompareWith(n, b, nBits, bBits, nv, bv);
    while order > 0
      invariant Holds(n[..], 2 * SIZE, nv) && nBits == BitLen(nv)
      invariant Holds(d[..], 2 * SIZE, Scale(bv, k)) && dBits == BitLen(Scale(bv, k)) >= nBits
      invariant b[..] == bs && order == Sign(nv - bv)
      invariant ModResult(nv, bv) == ModResult(av, bv)
      decreases nv
    {
      dBits, nBits, nv, k := ModStep(n, d, nBits, dBits, nv, bv, k);
      order := CompareWith(n, b, nBits, bBits, nv, bv);
    }
    StopKeepsResult(nv, bv);
    CopyLow(n, c, nv, bs, bv);
  }

  /** One turn of the loop: d drops to the largest b * 2^k not above n and is subtracted. */
  method ModStep(n: array<Word>, d: array<Word>, nBits: nat, dBits0: nat, ghost nv0: nat, ghost bv: nat, ghost k0: nat)
    returns (dBits: nat, bits: nat, ghost nv: nat, ghost k: nat)
    requires n != d && n.Length == d.Length == 2 * SIZE && 0 < bv < nv0
    requires Holds(n[..], 2 * SIZE, nv0) && nBits == BitLen(nv0)
    requires Holds(d[..], 2 * SIZE, Scale(bv, k0)) && dBits0 == BitLen(Scale(bv, k0)) >= nBits
    modifies n, d
    ensures Holds(n[..], 2 * SIZE, nv) && bits == BitLen(nv)
    ensures Holds(d[..], 2 * SIZE, Scale(bv, k)) && dBits == BitLen(Scale(bv, k)) >= bits
    ensures nv == nv0 - Scale(bv, k) < nv0 && ModResult(nv, bv) == ModResult(nv0, bv)
  {
    BitLenMonotone(bv, nv0);
    BitLenBounds(bv);
    ghost var s := n[..];
    dBits, k := AlignBits(d, dBits0, nBits, bv, k0);
    assert n[..] == s;
    dBits, k := AlignOrder(n, d, nBits, dBits, nv0, bv, k);
    assert n[..] == s;
    SubtractKeepsResult(nv0, bv, k);
    ghost var ds := d[..];
    bits, nv := SubtractAndCount(n, nBits, d, nv0, Scale(bv, k));
    assert d[..] == ds;
    BitLenMonotone(nv, Scale(bv, k));
  }

  method CopyLow(n: array<Word>, c: array<Word>, ghost nv: nat, ghost b: seq<int>, ghost bv: nat)
    requires n != c && n.Length == 2 * SIZE && c.Length >= SIZE && Holds(n[..], 2 * SIZE, nv)
    requires Holds(b, SIZE, bv) && nv <= bv
    modifies c
    ensures Holds(c[..], SIZE, nv)
  {
    HoldsBits(b, SIZE, bv);
    BitLenMonotone(nv, bv);
    FitsDigits(n[..], 2 * SIZE, nv, SIZE);
    ghost var s := n[..];
    forall i | 0 <= i < SIZE { c[i] := n[i]; }
    ValCongruent(s, c[..], RADIX, SIZE);
  }

  lemma {:induction false} ScaleTwice(b: nat, k: nat, s: nat)
    ensures Scale(Scale(b, k), s) == Scale(b, k + s)
  {
    PowAdd(2, k, s);
    assert (b * Pow(2, k)) * Pow(2, s) == b * (Pow(2, k) * Pow(2, s));
  }

  method CompareWith(n: array<Word>, b: array<Word>, nBits: nat, bBits: nat, ghost nv: nat, ghost bv: nat)
    returns (order: int)
    requires n.Length == 2 * SIZE && b.Length == SIZE && bv > 0
    requires Holds(n[..], 2 * SIZE, nv) && Holds(b[..], SIZE, bv) && nBits == BitLen(nv) && bBits == BitLen(bv)
    ensures order == Sign(nv - bv)
  {
    HoldsBits(n[..], 2 * SIZE, nv);
    HoldsBits(b[..], SIZE, bv);
    BitLenBounds(bv);
    order := Cmp(n, b, nBits, bBits, nv, bv);
  }

  method SubtractAndCount(n: array<Word>, nBits: nat, d: array<Word>, ghost nv0: nat, ghost dv: nat)
    returns (bits: nat, ghost nv: nat)
    requires n != d && n.Length == d.Length == 2 * SIZE && 0 < dv <= nv0
    requires Holds(n[..], 2 * SIZE, nv0) && Holds(d[..], 2 * SIZE, dv) && nBits == BitLen(nv0)
    modifies n
    ensures nv == nv0 - dv && Holds(n[..], 2 * SIZE, nv) && bits == BitLen(nv)
  {
    HoldsBits(n[..], 2 * SIZE, nv0);
    BitLenBounds(nv0);
    Sub(n, nBits, d, nv0, dv);
    nv := nv0 - dv;
    BitLenMonotone(nv, nv0);
    FitsDigits(n[..], 2 * SIZE, nv, (nBits - 1) / 56 + 1);
    bits := Bits(n, nBits);
  }

  // ----- N_modexp

  /** t := t * a mod m. */
  method MulMod(t: array<Word>, a: array<Word>, m: array<Word>, c: array<Word>,
                ghost tv: nat, ghost av: nat, ghost mv: nat)
    requires t.Length == a.Length == c.Length == 2 * SIZE && m.Length == SIZE && m != c && mv > 0
    requires Holds(t[..], SIZE, tv) && Holds(a[..], SIZE, av) && Holds(m[..], SIZE, mv)
    modifies c
    ensures Holds(c[..], SIZE, ModResult(tv * av, mv))
  {
    var u := new Word[2 * SIZE];
    ghost var ms := m[..];
    Mul(t, a, u);
    assert m[..] == ms;
    Mod(u, m, c, tv * av, mv);
  }

  /** The bits of e seen so far: bit j of digit q is bit 56 q + j of the number. */
  lemma {:induction false} BitOfDigit(v: nat, q: nat, j: nat)
    requires j < 56
    ensures Shr(DigitAt(v, RADIX, q), j) % 2 == DigitAt(v, 2, 56 * q + j)
  {
    SplitRadix(j);
    PowPositive(RADIX, q);
    var x, y := v / Pow(RADIX, q), Pow(2, j);
    ModThenDiv(x, y, Pow(2, 56 - j), RADIX);
    var h := Pow(2, 55 - j);
    PowPositive(2, 55 - j);
    assert Pow(2, 56 - j) == h * 2;
    ModThenDiv(x / y, 2, h, h * 2);
    DivTwice(v, Pow(RADIX, q), y);
    RadixPow(q);
    PowAdd(2, 56 * q, j);
  }

  /** The program's square after i turns. */
  function Squares(b: nat, m: nat, i: nat): nat
    requires m > 0
  {
    if i == 0 then b else ModResult(Squares(b, m, i - 1) * Squares(b, m, i - 1), m)
  }

  /** The program's product after i bits of e. */
  function Powers(b: nat, e: nat, m: nat, i: nat): nat
    requires m > 0
  {
    if i == 0 then 1
    else if DigitAt(e, 2, i - 1) == 1 then ModResult(Powers(b, e, m, i - 1) * Squares(b, m, i - 1), m)
    else Powers(b, e, m, i - 1)
  }

  /** Exactly what N_modexp leaves in r. */
  function ModExpResult(b: nat, e: nat, m: nat): nat
    requires m > 0
  {
    Powers(b, e, m, BitLen(e))
  }

  lemma {:induction false} SquaresCongruent(b: nat, m: nat, i: nat)
    requires m > 0
    ensures Squares(b, m, i) % m == Pow(b, Pow(2, i)) % m
  {
    if i == 0 {
      assert Pow(b, 1) == b * Pow(b, 0);
    } else {
      var p, x := Pow(2, i - 1), Squares(b, m, i - 1);
      SquaresCongruent(b, m, i - 1);
      PowAdd(b, p, p);
      CongruentMul(x, Pow(b, p), x, Pow(b, p), m);
      ModResultCorrect(x * x, m);
    }
  }

  lemma {:induction false} PowersCongruent(b: nat, e: nat, m: nat, i: nat)
    requires m > 0
    ensures Pow(2, i) > 0 && Powers(b, e, m, i) % m == Pow(b, e % Pow(2, i)) % m
    ensures Powers(b, e, m, i) <= m
  {
    PowPositive(2, i);
    if i == 0 {
      assert Pow(2, 0) == 1 && Pow(b, 0) == 1;
    } else {
      PowersCongruent(b, e, m, i - 1);
      var p := Pow(2, i - 1);
      DigitStep(e, p, 2);
      if DigitAt(e, 2, i - 1) == 1 {
        SquaresCongruent(b, m, i - 1);
        PowAdd(b, e % p, p);
        CongruentMul(Powers(b, e, m, i - 1), Pow(b, e % p), Squares(b, m, i - 1), Pow(b, p), m);
        ModResultCorrect(Powers(b, e, m, i - 1) * Squares(b, m, i - 1), m);
      }
    }
  }

  /** N_modexp computes b^e modulo m: the residue is right, never above m, and exact unless m divides b^e. */
  lemma {:induction false} ModExpCorrect(b: nat, e: nat, m: nat)
    requires m > 0
    ensures ModExpResult(b, e, m) <= m && ModExpResult(b, e, m) % m == Pow(b, e) % m
    ensures Pow(b, e) % m != 0 ==> ModExpResult(b, e, m) == Pow(b, e) % m
  {
    BitLenBounds(e);
    PowersCongruent(b, e, m, BitLen(e));
    DivModUnique(e, Pow(2, BitLen(e)), 0, e);
    ResidueBelow(ModExpResult(b, e, m), Pow(b, e), m);
  }

  // ----- multiples of the modulus

  lemma {:induction false} ParityOfProduct(x: int, y: int)
    ensures (x * y) % 2 == 1 <==> x % 2 == 1 && y % 2 == 1
  {
    ModMul(x, y, 2);
  }

  /** A multiple of an odd modulus ends at the modulus iff it is odd. */
  lemma {:induction false} OddMultiple(x: nat, m: nat)
    requires m % 2 == 1 && x % m == 0
    ensures ModResult(x, m) == if x % 2 == 1 then m else 0
  {
    assert x == x / m * m;
    ParityOfProduct(x / m, m);
  }

  lemma {:induction false} MultipleTimes(x: nat, y: nat, m: nat)
    requires m > 0 && x % m == 0
    ensures (x * y) % m == 0 && x * y / m == x / m * y
  {
    var q := x / m;
    assert x * y == (q * y) * m by { assert x == q * m; }
    DivModUnique(x * y, m, q * y, 0);
  }

  lemma {:induction false} OddSquare(x: nat, m: nat)
    requires m % 2 == 1 && x % m == 0
    ensures ModResult(x * x, m) % m == 0 && ModResult(x * x, m) % 2 == x % 2
  {
    hide ModResult;
    MultipleTimes(x, x, m);
    ParityOfProduct(x, x);
    OddMultiple(x * x, m);
    DivModUnique(m, m, 1, 0);
    DivModUnique(0, m, 0, 0);
  }

  /** Over an odd modulus every square of a multiple is a multiple of the same parity. */
  lemma {:induction false} OddSquares(b: nat, m: nat, i: nat)
    requires m % 2 == 1 && b % m == 0
    ensures Squares(b, m, i) % m == 0 && Squares(b, m, i) % 2 == b % 2
  {
    if i == 0 {
    } else {
      hide ModResult;
      OddSquares(b, m, i - 1);
      OddSquare(Squares(b, m, i - 1), m);
    }
  }

  /** Over an even modulus the first square of a multiple is 0. */
  lemma {:induction false} EvenSquares(b: nat, m: nat, i: nat)
    requires m > 0 && m % 2 == 0 && b % m == 0 && i > 0
    ensures Squares(b, m, i) == 0
  {
    if i == 1 {
      MultipleTimes(b, b, m);
      assert b == b / m * m;
      ParityOfProduct(b / m, m);
      ParityOfProduct(b / m, b);
      assert Squares(b, m, 0) == b;
    } else {
      EvenSquares(b, m, i - 1);
      DivModUnique(0, m, 0, 0);
    }
  }

  lemma {:induction false} BitStep(e: nat, i: nat)
    requires i > 0
    ensures Pow(2, i) == 2 * Pow(2, i - 1) > 0
    ensures e % Pow(2, i) == e % Pow(2, i - 1) + if DigitAt(e, 2, i - 1) == 1 then Pow(2, i - 1) else 0
  {
    PowPositive(2, i - 1);
    DigitStep(e, Pow(2, i - 1), 2);
  }

  /** A multiple x of an odd modulus, times 1 or an earlier answer of the same parity. */
  lemma {:induction false} OddProduct(t: nat, x: nat, b: nat, m: nat)
    requires m % 2 == 1 && x % m == 0 && x % 2 == b % 2 && (t == 1 || t == if b % 2 == 1 then m else 0)
    ensures ModResult(t * x, m) == if b % 2 == 1 then m else 0
  {
    hide ModResult;
    MultipleTimes(x, t, m);
    assert t * x == x * t;
    ParityOfProduct(t, x);
    OddMultiple(t * x, m);
  }

  /** The product stays 1 up to the first set bit of e, and is then the modulus or 0. */
  lemma {:induction false} OddPowers(b: nat, e: nat, m: nat, i: nat)
    requires m % 2 == 1 && b % m == 0
    ensures Pow(2, i) > 0
    ensures Powers(b, e, m, i) == if e % Pow(2, i) == 0 then 1 else if b % 2 == 1 then m else 0
  {
    PowPositive(2, i);
    if i == 0 {
      assert Pow(2, 0) == 1;
    } else {
      hide ModResult, DigitAt, Pow, Squares;
      BitStep(e, i);
      OddPowers(b, e, m, i - 1);
      OddSquares(b, m, i - 1);
      OddProduct(Powers(b, e, m, i - 1), Squares(b, m, i - 1), b, m);
    }
  }

  lemma {:induction false} EvenPowers(b: nat, e: nat, m: nat, i: nat)
    requires m > 0 && m % 2 == 0 && b % m == 0
    ensures Pow(2, i) > 0
    ensures Powers(b, e, m, i) == if e % Pow(2, i) == 0 then 1 else if e % Pow(2, i) == 1 then ModResult(b, m) else 0
  {
    PowPositive(2, i);
    if i == 0 {
      assert Pow(2, 0) == 1;
    } else {
      BitStep(e, i);
      EvenPowers(b, e, m, i - 1);
      if i == 1 {
        assert Pow(2, 0) == 1 && Squares(b, m, 0) == b && Powers(b, e, m, 0) == 1;
      } else {
        PowMonotone(2, 1, i - 1);
        assert Pow(2, 1) == 2;
        EvenSquares(b, m, i - 1);
        ZeroProduct(Powers(b, e, m, i - 1), m);
      }
    }
  }

  lemma {:induction false} ZeroProduct(t: nat, m: nat)
    requires m > 0
    ensures ModResult(t * 0, m) == 0
  {
    DivModUnique(0, m, 0, 0);
  }

  /** For a multiple b of m: when does N_modexp answer m? */
  predicate EndsAtModulus(b: nat, e: nat, m: nat)
    requires m > 0
  {
    if e == 0 then m == 1 else if m % 2 == 1 then b % 2 == 1 else e == 1 && b / m % 2 == 1
  }

  /**
   A multiple of the modulus, raised to any power, gives the modulus or 0, and which of the two is decided by
   parities.
   */
  lemma {:induction false} ModExpOfMultiple(b: nat, e: nat, m: nat)
    requires m > 0 && b % m == 0
    ensures e > 0 ==> ModExpResult(b, e, m) == if EndsAtModulus(b, e, m) then m else 0
    ensures e == 0 ==> ModExpResult(b, e, m) == 1
  {
    var i := BitLen(e);
    BitLenBounds(e);
    DivModUnique(e, Pow(2, i), 0, e);
    if m % 2 == 1 {
      OddPowers(b, e, m, i);
    } else {
      EvenPowers(b, e, m, i);
    }
  }

  lemma {:induction false} PowerOfMultiple(b: nat, e: nat, m: nat)
    requires m > 0 && b % m == 0 && e > 0
    ensures Pow(b, e) % m == 0
  {
    MultipleTimes(b, Pow(b, e - 1), m);
  }

  /** Where the modulus divides a power of b only together with b. */
  lemma {:induction false} ExactUnlessMultiple(b: nat, e: nat, m: nat)
    requires m > 0 && (Pow(b, e) % m == 0 ==> b % m == 0)
    ensures ModExpResult(b, e, m) == Pow(b, e) % m <==> !(b % m == 0 && EndsAtModulus(b, e, m))
  {
    hide ModExpResult;
    if b % m == 0 {
      ModExpOfMultiple(b, e, m);
      if e == 0 {
        assert Pow(b, 0) == 1;
        OneModulo(m);
      } else {
        PowerOfMultiple(b, e, m);
      }
    } else {
      ModExpCorrect(b, e, m);
    }
  }

  /**
   For every modulus without a repeated factor, so for the built-in prime and every RSA modulus, N_modexp is exact
   iff b is no multiple of m that the parities let end at m.
   */
  lemma {:induction false} ModExpExactIff(b: nat, e: nat, m: nat)
    requires Squarefree.IsSquarefree(m)
    ensures ModExpResult(b, e, m) == Pow(b, e) % m <==> !(b % m == 0 && EndsAtModulus(b, e, m))
  {
    hide ModExpResult, EndsAtModulus;
    if Pow(b, e) % m == 0 { Squarefree.DividesBase(m, b, e); }
    ExactUnlessMultiple(b, e, m);
  }

  /** With a repeated factor the answer can be the modulus although b is no multiple of it: 2^2 modulo 4. */
  lemma {:induction false} RepeatedFactorMayReturnModulus()
    ensures ModExpResult(2, 2, 4) == 4 && 2 % 4 != 0
  {
    assert Pow(2, 0) == 1 && Pow(2, 1) == 2;
    assert BitLen(2) == 2 && DigitAt(2, 2, 0) == 0 && DigitAt(2, 2, 1) == 1;
    assert Squares(2, 4, 0) == 2 && Squares(2, 4, 1) == 4;
    assert Powers(2, 2, 4, 0) == 1 && Powers(2, 2, 4, 1) == 1;
  }

  lemma {:induction false} OneModulo(m: nat)
    requires m > 0
    ensures 1 % m == if m == 1 then 0 else 1
  {
    if m > 1 { DivModUnique(1, m, 0, 1); }
  }

  /** One input on which the answer is the modulus and not the residue: 3^1 modulo 3. */
  lemma {:induction false} ModExpMayReturnModulus()
    ensures ModExpResult(3, 1, 3) == 3 && Pow(3, 1) % 3 == 0
  {
    ModExpOfMultiple(3, 1, 3);
    PowerOfMultiple(3, 1, 3);
  }

  lemma {:induction false} ResidueBelow(r: nat, x: nat, m: nat)
    requires m > 0 && r <= m && r % m == x % m
    ensures x % m != 0 ==> r == x % m
  {
    if r < m { DivModUnique(r, m, 0, r); } else { DivModUnique(m, m, 1, 0); }
  }

  lemma {:induction false} ShrStep(x: nat, j: nat)
    ensures Shr(Shr(x, j), 1) == Shr(x, j + 1) && And(Shr(x, j), 1) == Shr(x, j) % 2
  {
    PowPositive(2, j);
    assert Pow(2, 1) == 2;
    DivTwice(x, Pow(2, j), 2);
    assert Pow(2, j + 1) == Pow(2, j) * 2;
    AndMask(Shr(x, j), 1);
  }

  method MultiplyAndSquare(t: array<Word>, a: array<Word>, m: array<Word>, bit: bool,
                           ghost tv: nat, ghost av: nat, ghost mv: nat)
    requires m.Length == SIZE && a.Length == t.Length == 2 * SIZE && a != t && mv > 0
    requires Holds(m[..], SIZE, mv) && Holds(t[..], SIZE, tv) && Holds(a[..], SIZE, av)
    modifies a, t
    ensures Holds(t[..], SIZE, if bit then ModResult(tv * av, mv) else tv)
    ensures Holds(a[..], SIZE, ModResult(av * av, mv))
  {
    ghost var ms, aa := m[..], a[..];
    if bit {
      MulMod(t, a, m, t, tv, av, mv);
    }
    assert m[..] == ms && a[..] == aa;
    ghost var ts := t[..];
    MulMod(a, a, m, a, av, av, mv);
    assert t[..] == ts;
  }

  /** The inner loop of N_modexp: the bits of one digit of e, lowest first. */
  method ModExpDigit(e: array<Word>, m: array<Word>, a: array<Word>, t: array<Word>, i0: nat, eBits: nat,
                     ghost bv: nat, ghost ev: nat, ghost mv: nat)
    returns (i: nat)
    requires e.Length == m.Length == SIZE && a.Length == t.Length == 2 * SIZE && a != t && mv > 0
    requires Holds(e[..], SIZE, ev) && Holds(m[..], SIZE, mv) && i0 % 56 == 0 && i0 < eBits <= 56 * SIZE
    requires Holds(t[..], SIZE, Powers(bv, ev, mv, i0)) && Holds(a[..], SIZE, Squares(bv, mv, i0))
    modifies a, t
    ensures i0 < i <= eBits && (i % 56 == 0 || i == eBits)
    ensures Holds(t[..], SIZE, Powers(bv, ev, mv, i)) && Holds(a[..], SIZE, Squares(bv, mv, i))
  {
    hide ModResult, Holds, And, Shr, DigitAt;
    i := i0;
    ghost var ms, q := m[..], i0 / 56;
    var w := e[i / 56];
    FirstDigit(e[..], ev, q);
    var j := 0;
    while i < eBits && j < 56
      invariant i == i0 + j <= eBits && j <= 56 && m[..] == ms
      invariant w == Shr(DigitAt(ev, RADIX, q), j)
      invariant Holds(t[..], SIZE, Powers(bv, ev, mv, i)) && Holds(a[..], SIZE, Squares(bv, mv, i))
    {
      BitOfDigit(ev, q, j);
      ShrStep(DigitAt(ev, RADIX, q), j);
      MultiplyAndSquare(t, a, m, And(w, 1) != 0, Powers(bv, ev, mv, i), Squares(bv, mv, i), mv);
      w := Shr(w, 1);
      i, j := i + 1, j + 1;
    }
  }

  lemma {:induction false} FirstDigit(s: seq<int>, v: nat, q: nat)
    requires Holds(s, SIZE, v) && q < SIZE
    ensures s[q] == Shr(DigitAt(v, RADIX, q), 0)
  {
    ValDigit(s, RADIX, SIZE, q);
    assert Pow(2, 0) == 1;
  }

  /** r := b^e mod m, right to left. */
  method ModExp(b: array<Word>, e: array<Word>, m: array<Word>, r: array<Word>,
                ghost bv: nat, ghost ev: nat, ghost mv: nat)
    requires b.Length == e.Length == m.Length == r.Length == SIZE && mv > 0
    requires Holds(b[..], SIZE, bv) && Holds(e[..], SIZE, ev) && Holds(m[..], SIZE, mv)
    modifies r
    ensures Holds(r[..], SIZE, ModExpResult(bv, ev, mv))
  {
    ghost var es, ms := e[..], m[..];
    var a, t := StartPowers(b, bv);
    assert e[..] == es && m[..] == ms;
    HoldsBits(es, SIZE, ev);
    var eBits := Bits(e, SIZE * 56);
    var i := 0;
    while i < eBits
      invariant 0 <= i <= eBits && (i % 56 == 0 || i == eBits)
      invariant e[..] == es && m[..] == ms
      invariant Holds(t[..], SIZE, Powers(bv, ev, mv, i)) && Holds(a[..], SIZE, Squares(bv, mv, i))
    {
      i := ModExpDigit(e, m, a, t, i, eBits, bv, ev, mv);
    }
    ghost var ts := t[..];
    forall k | 0 <= k < SIZE { r[k] := t[k]; }
    ValCongruent(ts, r[..], RADIX, SIZE);
  }

  method StartPowers(b: array<Word>, ghost bv: nat) returns (a: array<Word>, t: array<Word>)
    requires b.Length == SIZE && Holds(b[..], SIZE, bv)
    ensures fresh(a) && fresh(t) && a != t && a.Length == t.Length == 2 * SIZE
    ensures Holds(a[..], SIZE, bv) && Holds(t[..], SIZE, 1)
  {
    ghost var bs := b[..];
    a := new Word[2 * SIZE](i requires 0 <= i < 2 * SIZE reads b => if i < b.Length then b[i] else 0);
    t := new Word[2 * SIZE](i => if i == 0 then 1 else 0);
    ValCongruent(a[..], bs, RADIX, SIZE);
    ValTrim(t[..], RADIX, 1, SIZE);
    ValOne(t[..], RADIX);
  }
}
