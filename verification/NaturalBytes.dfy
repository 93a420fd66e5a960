/** Byte strings to and from big naturals, and the range checks on public values. */
module NaturalBytes {
  import opened Arith
  import opened Digits
  import opened Bytes
  import opened Natural

  lemma {:induction false} RadixBytes()
    ensures Pow(256, 7) == RADIX && Pow(256, 1) == 256
  {
    assert Pow(256, 2) == 65536;
    PowAdd(256, 2, 2);
    PowAdd(256, 4, 2);
    PowAdd(256, 6, 1);
  }

  /** Grouping g digits at a time gives digits in radix r^g of the same number. */
  lemma {:induction false} ValGroup(s: seq<int>, t: seq<int>, r: nat, g: nat, n: nat)
    requires r > 0 && g * n <= |s| && n <= |t|
    requires forall i :: 0 <= i < n ==> 0 <= g * i && g * i + g <= |s| && t[i] == Val(s[g * i..], r, g)
    ensures Val(t, Pow(r, g), n) == Val(s, r, g * n)
  {
    if n > 0 {
      var m := g * (n - 1);
      assert m + g == g * n;
      ValGroup(s, t, r, g, n - 1);
      PowPow(r, g, n - 1);
      ValSplit(s, r, m, m + g);
      assert t[n - 1] == Val(s[g * (n - 1)..], r, g);
    } else {
      assert g * 0 == 0;
    }
  }

  /** The program reads 8 bytes per digit and masks the top one off. */
  method ReadDigit(data: seq<Octet>, k: nat) returns (w: Word)
    requires k + 8 <= |data|
    ensures w == Val(data[k..], 256, 7) < RADIX
  {
    ghost var s := data[k..];
    var raw := 0;
    var i := 0;
    while i < 8
      invariant 0 <= i <= 8 && raw == Val(s, 256, i)
    {
      raw := raw + data[k + i] * Pow(256, i);
      i := i + 1;
    }
    RadixBytes();
    Constants();
    ValBound(s, 256, 7);
    ValBound(s, 256, 8);
    DivModUnique(raw, RADIX, s[7], Val(s, 256, 7));
    AndMask(raw, 56);
    w := And(raw, RADIX - 1);
  }

  ghost function Padded(data: seq<Octet>): (p: seq<Octet>)
    requires |data| <= 7 * SIZE
    ensures |p| == 7 * SIZE
  {
    data + seq(7 * SIZE - |data|, _ => 0)
  }

  lemma {:induction false} DigitsOfBytes(data: seq<Octet>, s: seq<int>)
    requires |data| <= 7 * SIZE && |s| == SIZE
    requires forall i :: 0 <= i < SIZE ==> s[i] == Val(Padded(data)[7 * i..], 256, 7)
    ensures Holds(s, SIZE, LeValue(data))
  {
    RadixBytes();
    var p := Padded(data);
    forall i | 0 <= i < SIZE ensures 0 <= s[i] < RADIX { ValBound(p[7 * i..], 256, 7); }
    ValGroup(p, s, 256, 7, SIZE);
    ValTrim(p, 256, |data|, 7 * SIZE);
    ValCongruent(p, data, 256, |data|);
  }

  /** The last, partial digit: memmove of the remaining bytes into a zeroed word. */
  method ReadTail(data: seq<Octet>, k: nat) returns (w: Word)
    requires k <= |data| < k + 7
    ensures w == Val(data[k..], 256, |data| - k)
  {
    ghost var s := data[k..];
    RadixBytes();
    PowMonotone(256, |data| - k, 7);
    ValBound(s, 256, |data| - k);
    var raw, i := 0, 0;
    while i < |data| - k
      invariant 0 <= i <= |data| - k && raw == Val(s, 256, i)
    {
      raw := raw + data[k + i] * Pow(256, i);
      i := i + 1;
    }
    w := raw;
  }

  /**
   a := the little-endian number in data. A length that is a multiple of 7 would make
   the last 8-byte read run past the buffer, so callers must not pass one.
   */
  method Set(data: seq<Octet>, a: array<Word>)
    requires a.Length == SIZE && |data| < 7 * SIZE && (|data| % 7 != 0 || |data| == 0)
    modifies a
    ensures Holds(a[..], SIZE, LeValue(data))
  {
    var last := |data| / 7;
    ghost var p := Padded(data);
    var i := 0;
    while i < last
      invariant 0 <= i <= last
      invariant forall k :: 0 <= k < i ==> a[k] == Val(p[7 * k..], 256, 7)
    {
      var w := ReadDigit(data, 7 * i);
      ValCongruent(p[7 * i..], data[7 * i..], 256, 7);
      a[i] := w;
      i := i + 1;
    }
    var tail := ReadTail(data, 7 * last);
    a[last] := tail;
    TailDigit(data, last);
    i := last + 1;
    while i < SIZE
      invariant last + 1 <= i <= SIZE
      invariant forall k :: 0 <= k < i ==> a[k] == Val(p[7 * k..], 256, 7)
    {
      ValTrim(p[7 * i..], 256, 0, 7);
      a[i] := 0;
      i := i + 1;
    }
    DigitsOfBytes(data, a[..]);
  }

  lemma {:induction false} TailDigit(data: seq<Octet>, last: nat)
    requires |data| < 7 * SIZE && last == |data| / 7
    ensures Val(data[7 * last..], 256, |data| - 7 * last) == Val(Padded(data)[7 * last..], 256, 7)
  {
    var p, k := Padded(data)[7 * last..], |data| - 7 * last;
    ValTrim(p, 256, k, 7);
    ValCongruent(p, data[7 * last..], 256, k);
  }

  // ----- N_get

  lemma {:induction false} ByteOfDigit(v: nat, q: nat, j: nat)
    requires j < 7
    ensures Pow(256, j) > 0 && DigitAt(v, RADIX, q) / Pow(256, j) % 256 == DigitAt(v, 256, 7 * q + j)
  {
    RadixBytes();
    PowPositive(256, j);
    PowPositive(256, 7 - j);
    PowPositive(256, 6 - j);
    PowPositive(RADIX, q);
    PowAdd(256, 7 - j, j);
    var x, y, h := v / Pow(RADIX, q), Pow(256, j), Pow(256, 6 - j);
    ModThenDiv(x, y, Pow(256, 7 - j), RADIX);
    assert Pow(256, 7 - j) == h * 256;
    ModThenDiv(x / y, 256, h, h * 256);
    DivTwice(v, Pow(RADIX, q), y);
    PowPow(256, 7, q);
    PowAdd(256, 7 * q, j);
  }

  /** data := the low bytes of a; with fewer than 7 * SIZE bytes the high part is cut off. */
  method Get(data: array<Octet>, a: array<Word>, ghost v: nat)
    requires a.Length == SIZE && Holds(a[..], SIZE, v) && data.Length <= 7 * SIZE
    modifies data
    ensures data[..] == LeBytes(v, data.Length)
  {
    var size: nat, pos: nat, i := data.Length, 0, 0;
    while i < SIZE
      invariant 0 <= i <= SIZE && pos + size == data.Length && (pos == 7 * i || size == 0)
      invariant forall k :: 0 <= k < pos ==> data[k] == DigitAt(v, 256, k)
    {
      var digit: nat := a[i];
      ValDigit(a[..], RADIX, SIZE, i);
      assert digit == DigitAt(v, RADIX, i) / Pow(256, 0) by { assert Pow(256, 0) == 1; }
      var j := 0;
      while size > 0 && j < 7
        invariant 0 <= j <= 7 && pos + size == data.Length && (pos == 7 * i + j || size == 0)
        invariant Pow(256, j) > 0 && digit == DigitAt(v, RADIX, i) / Pow(256, j)
        invariant forall k :: 0 <= k < pos ==> data[k] == DigitAt(v, 256, k)
      {
        ByteOfDigit(v, i, j);
        data[pos] := digit % 256;
        NextByte(DigitAt(v, RADIX, i), j);
        digit := digit / 256;
        pos, size, j := pos + 1, size - 1, j + 1;
      }
      i := i + 1;
    }
  }

  lemma {:induction false} NextByte(x: nat, j: nat)
    ensures Pow(256, j) > 0 && Pow(256, j + 1) > 0 && x / Pow(256, j) / 256 == x / Pow(256, j + 1)
  {
    PowPositive(256, j);
    PowPositive(256, j + 1);
    DivTwice(x, Pow(256, j), 256);
    assert Pow(256, j + 1) == Pow(256, j) * 256;
  }

  // ----- N_lt2, N_neq1

  /** t := b - 1, which for b == 0 wraps to the all-ones number. */
  method Decrement(b: array<Word>, ghost bv: nat) returns (t: array<Word>, ghost tv: nat)
    requires b.Length == SIZE && Holds(b[..], SIZE, bv)
    ensures fresh(t) && t.Length == SIZE && Holds(t[..], SIZE, tv)
    ensures tv == if bv == 0 then Pow(RADIX, SIZE) - 1 else bv - 1
  {
    hide Pow;
    PowZero();
    t := new Word[SIZE];
    var carry, i := true, 0;
    while i < SIZE
      invariant 0 <= i <= SIZE && Normal(t[..], RADIX, i)
      invariant Val(b[..], RADIX, i) - 1 == Val(t[..], RADIX, i) - (if carry then Pow(RADIX, i) else 0)
    {
      ghost var was := t[..];
      if carry {
        if b[i] == 0 {
          t[i] := RADIX - 1;
        } else {
          t[i] := b[i] - 1;
          carry := false;
        }
      } else {
        t[i] := b[i];
      }
      ValCongruent(was, t[..], RADIX, i);
      DecrementStep(b[i], Pow(RADIX, i));
      NextPow(i);
      i := i + 1;
    }
    ValBound(t[..], RADIX, SIZE);
    tv := Val(t[..], RADIX, SIZE);
  }

  lemma {:induction false} PowZero()
    ensures Pow(RADIX, 0) == 1
  {
  }

  lemma {:induction false} NextPow(i: nat)
    ensures Pow(RADIX, i + 1) == RADIX * Pow(RADIX, i)
  {
  }

  lemma {:induction false} DecrementStep(d: int, p: int)
    ensures (d - 1) * p == d * p - p && (RADIX - 1) * p == RADIX * p - p
  {
  }

  /** Is a in 3 .. b - 2? The caller must not pass a == 0 with b == 1, where both sides have no bits. */
  method Lt2(a: array<Word>, b: array<Word>, ghost av: nat, ghost bv: nat) returns (ok: bool)
    requires a.Length == b.Length == SIZE && Holds(a[..], SIZE, av) && Holds(b[..], SIZE, bv)
    requires !(av == 0 && bv == 1)
    ensures bv > 0 ==> (ok <==> 3 <= av <= bv - 2)
  {
    ghost var tv: nat;
    var t;
    t, tv := Decrement(b, bv);
    assert a[..] == old(a[..]);
    var aBits := Bits(a, SIZE * 56);
    var tBits := Bits(t, SIZE * 56);
    BitLenBounds(av);
    BitLenBounds(tv);
    HoldsBits(a[..], SIZE, av);
    HoldsBits(t[..], SIZE, tv);
    var order := Cmp(a, t, aBits, tBits, av, tv);
    if order >= 0 { return false; }
    if aBits > 2 {
      PowMonotone(2, 2, aBits - 1);
      assert Pow(2, 2) == 4;
      return true;
    }
    SmallDigit(a[..], av);
    return a[0] == 3;
  }

  lemma {:induction false} SmallDigit(s: seq<int>, v: nat)
    requires Holds(s, SIZE, v) && BitLen(v) <= 2
    ensures v <= 3 && s[0] == v
  {
    FitsDigits(s, SIZE, v, 1);
    ValOne(s, RADIX);
    BitLenBounds(v);
    PowMonotone(2, BitLen(v), 2);
    assert Pow(2, 2) == 4;
  }

  method Neq1(a: array<Word>, ghost av: nat) returns (ok: bool)
    requires a.Length == SIZE && Holds(a[..], SIZE, av)
    ensures ok <==> av != 1
  {
    var aBits := Bits(a, SIZE * 56);
    BitLenBounds(av);
    assert Pow(2, 1) == 2 && Pow(2, 0) == 1;
    assert BitLen(1) == 1;
    return aBits != 1;
  }
}
