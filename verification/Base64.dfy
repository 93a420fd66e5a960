/** The program's base 64: six-bit groups taken from the low end, over the alphabet 0-9 a-z A-Z - =. */
module Base64 {
  import opened Arith
  import opened Digits
  import opened Bytes
  import opened Buffers

  type Sextet = x: int | 0 <= x < 64

  // ----- the alphabet

  function ToDigit(v: Sextet): (c: Octet)
  {
    if v < 10 then 48 + v
    else if v < 36 then 97 + (v - 10)
    else if v < 62 then 65 + (v - 36)
    else if v == 62 then 45 else 61
  }

  predicate InAlphabet(c: Octet)
  {
    48 <= c <= 57 || 97 <= c <= 122 || 65 <= c <= 90 || c == 45 || c == 61
  }

  function FromDigit(c: Octet): (v: Sextet)
    requires InAlphabet(c)
    ensures ToDigit(v) == c
  {
    if 48 <= c <= 57 then c - 48
    else if 97 <= c <= 122 then c - 97 + 10
    else if 65 <= c <= 90 then c - 65 + 36
    else if c == 45 then 62 else 63
  }

  lemma {:induction false} DigitRoundTrip(v: Sextet)
    ensures InAlphabet(ToDigit(v)) && FromDigit(ToDigit(v)) == v
  {
  }

  /** The digits in order: 0-9, a-z, A-Z, minus and equals. */
  lemma {:induction false} AlphabetIs(v: Sextet)
    ensures v < 10 ==> ToDigit(v) == '0' as int + v
    ensures 10 <= v < 36 ==> ToDigit(v) == 'a' as int + (v - 10)
    ensures 36 <= v < 62 ==> ToDigit(v) == 'A' as int + (v - 36)
    ensures ToDigit(62) == '-' as int && ToDigit(63) == '=' as int
  {
  }

  // ----- reading six bits

  /** Bits idx .. idx + 5, spread over two bytes. */
  function ReadBits(data: seq<Octet>, idx: nat): nat
    requires idx / 8 + 1 < |data|
  {
    var b, off := idx / 8, idx % 8;
    PowPositive(2, off);
    And(Or(data[b] / Pow(2, off), data[b + 1] * Pow(2, 8 - off)), 0x3F)
  }

  /** The weight of bit 6 i, seen from the bytes. */
  lemma {:induction false} Weights(i: nat)
    ensures var b, off := 6 * i / 8, 6 * i % 8;
            && Pow(256, b) > 0 && Pow(2, off) > 0 && Pow(2, 8 - off) > 0
            && Pow(64, i) == Pow(256, b) * Pow(2, off) && Pow(2, off) * Pow(2, 8 - off) == 256
  {
    var b, off := 6 * i / 8, 6 * i % 8;
    var six: nat, eight: nat := 6, 8;
    assert Pow(2, six) == 64 && Pow(2, eight) == 256;
    PowPow(2, six, i);
    PowPow(2, eight, b);
    PowAdd(2, 8 * b, off);
    PowAdd(2, off, 8 - off);
    PowPositive(256, b);
    PowPositive(2, off);
    PowPositive(2, 8 - off);
  }

  lemma {:induction false} LastSix(x: nat)
    ensures x % 256 % 64 == x % 64
  {
    AddMultiple(x % 256, x / 256 * 4, 64);
    assert x == x % 256 + (x / 256 * 4) * 64;
  }

  /** On numbers: six bits at offset off of a word w, from its two low bytes. */
  lemma {:induction false} SixBits(w: nat, lo: nat, hi: nat, q: nat, p: nat)
    requires q > 0 && p > 0 && p * q == 256 && lo == w % 256 && hi == w / 256 % 256
    ensures (lo / q + hi * p) % 64 == w / q % 64
  {
    Window(w, q, p, 256);
    SameSix(w / q, lo / q, hi * p);
  }

  lemma {:induction false} SameSix(x: nat, low: nat, high: nat)
    requires x % 256 == low + high % 256
    ensures (low + high) % 64 == x % 64
  {
    AddMultiple(x % 256, high / 256, 256);
    assert low + high == x % 256 + high / 256 * 256;
    LastSix(low + high);
    LastSix(x);
    LastSix(x % 256);
  }

  lemma {:induction false} TwoBytes(data: seq<Octet>, b: nat)
    requires b + 1 < |data|
    ensures Pow(256, b) > 0
    ensures var w := LeValue(data) / Pow(256, b); w % 256 == data[b] && w / 256 % 256 == data[b + 1]
  {
    ValDigit(data, 256, |data|, b);
    ValDigit(data, 256, |data|, b + 1);
    PowPositive(256, b);
    DivTwice(LeValue(data), Pow(256, b), 256);
    assert Pow(256, b + 1) == 256 * Pow(256, b);
  }

  lemma {:induction false} JoinBytes(lo: nat, hi: nat, off: nat, q: nat, p: nat)
    requires off < 8 && q == Pow(2, off) > 0 && p == Pow(2, 8 - off) > 0 && p * q == 256 && lo < 256
    ensures And(Or(lo / q, hi * p), 0x3F) == (lo / q + hi * p) % 64
  {
    hide And, Or, Pow;
    LowPart(lo, q, p);
    OrDisjoint(hi, hi * p, lo / q, 8 - off);
    var six: nat := 6;
    SixtyFour(six);
    AndMask(lo / q + hi * p, six);
  }

  lemma {:induction false} SixtyFour(six: nat)
    requires six == 6
    ensures Pow(2, six) == 64
  {
  }

  /** Group i is digit i of the number in base 64. */
  lemma {:induction false} ReadBitsDigit(data: seq<Octet>, i: nat)
    requires 6 * i / 8 + 1 < |data|
    ensures ReadBits(data, 6 * i) == DigitAt(LeValue(data), 64, i)
  {
    hide LeValue, And, Or, Pow;
    var v, b, off := LeValue(data), 6 * i / 8, 6 * i % 8;
    Weights(i);
    var q, p, bb := Pow(2, off), Pow(2, 8 - off), Pow(256, b);
    TwoBytes(data, b);
    var w, lo: nat, hi: nat := v / bb, data[b], data[b + 1];
    SixBits(w, lo, hi, q, p);
    DivTwice(v, bb, q);
    JoinBytes(lo, hi, off, q, p);
  }

  lemma {:induction false} LowPart(lo: nat, q: nat, p: nat)
    requires q > 0 && p > 0 && p * q == 256 && lo < 256
    ensures lo / q < p
  {
    if lo / q >= p { MulLe(p, lo / q, q); }
  }

  // ----- encoding

  /** The closed formula for the length; for non-empty input only. */
  function EncodedLength(n: nat): (m: nat)
    requires n > 0
    ensures 6 * (m - 1) < 8 * n <= 6 * m
  {
    (8 * n - 1) / 6 + 1
  }

  function DecodedLength(m: nat): (n: nat)
    requires m > 0
    ensures 8 * (n - 1) < 6 * m <= 8 * n
  {
    (6 * m - 1) / 8 + 1
  }

  /** The first m base-64 digits of the data. */
  function Encoded(data: seq<Octet>, m: nat): (s: seq<Octet>)
    ensures |s| == m && forall i :: 0 <= i < m ==> s[i] == ToDigit(DigitAt(LeValue(data), 64, i))
  {
    seq(m, i requires 0 <= i < m => ToDigit(DigitAt(LeValue(data), 64, i)))
  }

  /** base64_encode of the n bytes before the last byte of data, which is only read for filler bits. */
  method Encode(data: seq<Octet>, out: array<Octet>) returns (m: nat)
    requires |data| > 1 && EncodedLength(|data| - 1) <= out.Length
    modifies out
    ensures m == EncodedLength(|data| - 1) && out[..m] == Encoded(data, m)
    ensures ChangedOnly(out, 0, m)
  {
    hide ReadBits, LeValue, DigitAt, ToDigit;
    m := EncodedLength(|data| - 1);
    var i := 0;
    while i < m
      invariant 0 <= i <= m
      invariant forall k :: 0 <= k < i ==> out[k] == ToDigit(DigitAt(LeValue(data), 64, k))
      invariant ChangedOnly(out, 0, i)
    {
      ReadBitsDigit(data, i);
      out[i] := ToDigit(ReadBits(data, 6 * i));
      i := i + 1;
    }
  }

  // ----- decoding

  /** The six-bit values of a string over the alphabet. */
  function Sextets(cs: seq<Octet>): (ds: seq<int>)
    requires forall i :: 0 <= i < |cs| ==> InAlphabet(cs[i])
    ensures |ds| == |cs| && forall i :: 0 <= i < |cs| ==> ds[i] == FromDigit(cs[i])
  {
    seq(|cs|, i requires 0 <= i < |cs| => FromDigit(cs[i]))
  }

  function Number(cs: seq<Octet>): (v: nat)
    requires forall i :: 0 <= i < |cs| ==> InAlphabet(cs[i])
  {
    ValBound(Sextets(cs), 64, |cs|);
    Val(Sextets(cs), 64, |cs|)
  }

  lemma {:induction false} NumberNext(cs: seq<Octet>, i: nat)
    requires i < |cs| && forall k :: 0 <= k <= i ==> InAlphabet(cs[k])
    ensures Number(cs[..i + 1]) == Number(cs[..i]) + FromDigit(cs[i]) * Pow(64, i)
    ensures Number(cs[..i]) < Pow(64, i)
  {
    ValCongruent(Sextets(cs[..i + 1]), Sextets(cs[..i]), 64, i);
    ValBound(Sextets(cs[..i]), 64, i);
  }

  lemma {:induction false} DigitLow(v: nat, x: nat, b: nat, k: nat)
    requires k < b
    ensures DigitAt(v + x * Pow(256, b), 256, k) == DigitAt(v, 256, k)
  {
    var e: nat := b - k - 1;
    PowPositive(256, k);
    PowPositive(256, e);
    PowAdd(256, k, e + 1);
    var y := x * Pow(256, e);
    assert x * Pow(256, b) == (y * 256) * Pow(256, k) by {
      assert Pow(256, e + 1) == 256 * Pow(256, e);
      Shuffle(x, Pow(256, k), Pow(256, e));
    }
    AddMultiple(v, y * 256, Pow(256, k));
    AddMultiple(v / Pow(256, k), y, 256);
  }

  lemma {:induction false} Shuffle(x: nat, k: nat, e: nat)
    ensures x * (k * (256 * e)) == ((x * e) * 256) * k
  {
  }

  lemma {:induction false} QuotientBelow(v: nat, bb: nat, q: nat)
    requires bb > 0 && v < bb * q
    ensures v / bb < q
  {
    if v / bb >= q { MulLe(q, v / bb, bb); }
  }

  lemma {:induction false} Regroup(val: nat, bb: nat, q: nat)
    ensures val * (bb * q) == (val * q) * bb
  {
  }

  lemma {:induction false} SplitGroup(val: nat, q: nat, p: nat)
    requires p > 0 && p * q == 256
    ensures val * q == val / p * 256 + val % p * q
  {
    var hi, lo := val / p, val % p;
    assert val == hi * p + lo;
    assert (hi * p + lo) * q == hi * (p * q) + lo * q;
  }

  /** Adding a group above a changes the byte it starts in and the next one. */
  lemma {:induction false} AddGroup(a: nat, val: nat, q: nat, p: nat)
    requires q > 0 && p > 0 && p * q == 256 && a < q
    ensures (a + val * q) % 256 == a + val % p * q && (a + val * q) / 256 == val / p
  {
    SplitGroup(val, q, p);
    TopDigit(val % p, p, q);
    DivModUnique(a + val * q, 256, val / p, a + val % p * q);
  }

  lemma {:induction false} SmallQuotient(val: nat, p: nat)
    requires val < 64 && p > 0
    ensures val / p < 64
  {
    var k := val / p;
    assert val == p * k + val % p;
    MulLe(1, p, k);
  }

  /** The byte values after writing group val at bit 6 i over number v. */
  lemma {:induction false} GroupBytes(v: nat, val: nat, i: nat, b: nat, bb: nat, q: nat, p: nat)
    requires v < Pow(64, i) && val < 64 && bb == Pow(256, b) > 0
    requires q > 0 && p > 0 && p * q == 256 && Pow(64, i) == bb * q
    ensures var v' := v + val * Pow(64, i);
            && DigitAt(v, 256, b) < q
            && DigitAt(v', 256, b) == DigitAt(v, 256, b) + val % p * q
            && DigitAt(v', 256, b + 1) == val / p
  {
    hide Pow;
    var v', a := v + val * Pow(64, i), v / bb;
    QuotientBelow(v, bb, q);
    Regroup(val, bb, q);
    AddMultiple(v, val * q, bb);
    AddGroup(a, val, q, p);
    MulLe(1, p, q);
    DivModUnique(a, 256, 0, a);
    DivTwice(v', bb, 256);
    NextPow(b);
    SmallQuotient(val, p);
    DivModUnique(val / p, 256, 0, val / p);
  }

  lemma {:induction false} NextPow(b: nat)
    ensures Pow(256, b + 1) == 256 * Pow(256, b) == Pow(256, b) * 256
  {
  }

  /** Byte k of the number so far, for every byte that the groups have reached. */
  ghost predicate Holds(out: seq<Octet>, v: nat, i: nat)
  {
    forall k :: 0 <= k < |out| && k <= 6 * i / 8 && (i > 0 || k < 6 * i / 8) ==> out[k] == DigitAt(v, 256, k)
  }

  /** write_bits: the rest of a byte above bit off, and the whole next byte. */
  method WriteBits(out: array<Octet>, i: nat, val: Sextet, ghost v: nat)
    requires 6 * i / 8 + 1 < out.Length && v < Pow(64, i) && Holds(out[..], v, i)
    modifies out
    ensures Holds(out[..], v + val * Pow(64, i), i + 1)
    ensures forall k :: 6 * i / 8 + 1 < k < out.Length ==> out[k] == old(out[k])
  {
    hide Pow, And, Or, DigitAt;
    var b, off := 6 * i / 8, 6 * i % 8;
    Weights(i);
    var q, p := Pow(2, off), Pow(2, 8 - off);
    ghost var v' := v + val * Pow(64, i);
    GroupBytes(v, val, i, b, Pow(256, b), q, p);
    var was := out[b];
    OldBits(was, val, off, q, p, v, i, b);
    out[b] := Or(And(was, 255 / p), (val * q) % 256);
    out[b + 1] := val / p;
    forall k | 0 <= k < b ensures DigitAt(v', 256, k) == DigitAt(v, 256, k) {
      Regroup(val, Pow(256, b), q);
      DigitLow(v, val * q, b, k);
    }
    assert 6 * (i + 1) / 8 <= b + 1;
  }

  /** The masked old byte and the shifted group do not overlap. */
  lemma {:induction false} OldBits(was: Octet, val: Sextet, off: nat, q: nat, p: nat, v: nat, i: nat, b: nat)
    requires off < 8 && q == Pow(2, off) > 0 && p == Pow(2, 8 - off) > 0
    requires p * q == 256 && b == 6 * i / 8 && off == 6 * i % 8
    requires i > 0 ==> was == DigitAt(v, 256, b)
    requires DigitAt(v, 256, b) < q
    ensures Or(And(was, 255 / p), (val * q) % 256) == DigitAt(v, 256, b) + val % p * q < 256
    ensures val / p < 256
  {
    hide Pow, And, Or, DigitAt;
    DivModUnique(255, p, q - 1, p - 1);
    AndMask(was, off);
    MulThenMod(val, p, q, 256);
    OrDisjoint(val % p, val % p * q, was % q, off);
    TopDigit(val % p, p, q);
    SmallQuotient(val, p);
    if i > 0 {
      DivModUnique(was, q, 0, was);
    } else {
      NoShift(off);
    }
  }

  lemma {:induction false} NoShift(off: nat)
    requires off == 0
    ensures Pow(2, off) == 1
  {
  }

  predicate AllInAlphabet(cs: seq<Octet>)
  {
    forall i :: 0 <= i < |cs| ==> InAlphabet(cs[i])
  }

  /** The bytes a string denotes. */
  function Decoded(cs: seq<Octet>): seq<Octet>
    requires cs != [] && AllInAlphabet(cs)
  {
    LeBytes(Number(cs), DecodedLength(|cs|))
  }

  /** base64_decode fails exactly on a character outside the alphabet; one byte behind the result may be written. */
  method Decode(cs: seq<Octet>, out: array<Octet>) returns (ok: bool, n: nat)
    requires cs != [] && DecodedLength(|cs|) < out.Length
    modifies out
    ensures ok <==> AllInAlphabet(cs)
    ensures ok ==> n == DecodedLength(|cs|) && out[..n] == Decoded(cs)
    ensures forall k :: DecodedLength(|cs|) < k < out.Length ==> out[k] == old(out[k])
  {
    hide Number, Pow, DigitAt, FromDigit, InAlphabet;
    ok, n := false, 0;
    var i := 0;
    Nothing(cs, out[..]);
    while i < |cs|
      invariant 0 <= i <= |cs| && forall k :: 0 <= k < i ==> InAlphabet(cs[k])
      invariant Holds(out[..], Number(cs[..i]), i)
      invariant forall k :: DecodedLength(|cs|) < k < out.Length ==> out[k] == old(out[k])
    {
      if !InAlphabet(cs[i]) { return; }
      NumberNext(cs, i);
      WriteBits(out, i, FromDigit(cs[i]), Number(cs[..i]));
      i := i + 1;
    }
    assert cs[..i] == cs;
    ok, n := true, DecodedLength(|cs|);
    assert out[..n] == Decoded(cs);
  }

  lemma {:induction false} Nothing(cs: seq<Octet>, out: seq<Octet>)
    ensures Holds(out, Number(cs[..0]), 0)
  {
  }

  // ----- round trip

  lemma {:induction false} SextetsOf(data: seq<Octet>, m: nat)
    ensures AllInAlphabet(Encoded(data, m)) && Pow(64, m) > 0 && Number(Encoded(data, m)) == LeValue(data) % Pow(64, m)
  {
    hide LeValue, DigitAt, ToDigit, InAlphabet, FromDigit, Pow;
    var v, cs := LeValue(data), Encoded(data, m);
    forall i | 0 <= i < m ensures InAlphabet(cs[i]) && FromDigit(cs[i]) == DigitAt(v, 64, i) {
      DigitRoundTrip(DigitAt(v, 64, i));
    }
    DigitsVal(Sextets(cs), 64, m, v);
  }

  lemma {:induction false} EnoughDigits(n: nat, m: nat)
    requires 8 * n <= 6 * m
    ensures exists x: nat :: x > 0 && Pow(64, m) == Pow(256, n) * x
  {
    var six: nat, eight: nat := 6, 8;
    assert Pow(2, six) == 64 && Pow(2, eight) == 256;
    PowPow(2, six, m);
    PowPow(2, eight, n);
    PowAdd(2, 8 * n, 6 * m - 8 * n);
    PowPositive(2, 6 * m - 8 * n);
    var x := Pow(2, 6 * m - 8 * n);
    assert Pow(64, m) == Pow(256, n) * x;
  }

  lemma {:induction false} Recombine(t: nat, a: nat, x: nat)
    ensures t * (a * x) == (t * x) * a
  {
  }

  /** The low n bytes survive the cut to m digits. */
  lemma {:induction false} LowBytesKept(v: nat, n: nat, m: nat, k: nat)
    requires 8 * n <= 6 * m && k < n && Pow(64, m) > 0
    ensures DigitAt(v % Pow(64, m), 256, k) == DigitAt(v, 256, k)
  {
    hide Pow, DigitAt;
    EnoughDigits(n, m);
    var x: nat :| x > 0 && Pow(64, m) == Pow(256, n) * x;
    var p := Pow(64, m);
    var r, t := v % p, v / p;
    assert v == r + (t * x) * Pow(256, n) by {
      assert v == t * p + r;
      Recombine(t, Pow(256, n), x);
    }
    DigitLow(r, t * x, n, k);
  }

  /**
   For every non-empty byte string and every filler byte behind it: the encoding decodes, to a string that starts
   with the original and is at most one byte longer.
   */
  lemma {:induction false} RoundTrip(data: seq<Octet>, filler: Octet)
    requires data != []
    ensures var cs := Encoded(data + [filler], EncodedLength(|data|));
            && AllInAlphabet(cs) && |cs| == EncodedLength(|data|) > 0
            && |data| <= |Decoded(cs)| <= |data| + 1
            && Decoded(cs)[..|data|] == data
  {
    hide LeValue, DigitAt, Pow, Number, AllInAlphabet;
    var all, n, m := data + [filler], |data|, EncodedLength(|data|);
    var v, cs := LeValue(all), Encoded(all, m);
    SextetsOf(all, m);
    forall k | 0 <= k < n ensures Decoded(cs)[k] == data[k] {
      LowBytesKept(v, n, m, k);
      ByteOf(all, k);
    }
  }

  lemma {:induction false} ByteOf(s: seq<Octet>, k: nat)
    requires k < |s|
    ensures DigitAt(LeValue(s), 256, k) == s[k]
  {
    ValDigit(s, 256, |s|, k);
  }
}
