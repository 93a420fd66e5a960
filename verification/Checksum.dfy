/** The Internet checksum, computed on little-endian words with two folds. */
module Checksum {
  import opened Common
  import opened Arith
  import opened Bytes

  /** The sum of 16-bit words read in host (little-endian) order; an odd last byte counts as itself. */
  function HostSum(s: seq<Octet>): nat
  {
    if |s| == 0 then 0 else if |s| == 1 then s[0] else s[0] + 256 * s[1] + HostSum(s[2..])
  }

  /** The sum in network order, an odd last byte being followed by a zero. */
  function NetSum(s: seq<Octet>): nat
  {
    if |s| == 0 then 0 else if |s| == 1 then 256 * s[0] else 256 * s[0] + s[1] + NetSum(s[2..])
  }

  /** One's complement addition of 16-bit words, as a function of the plain sum: end-around carries count once each. */
  function OnesComplement(s: nat): (r: U16)
    ensures r == 0 <==> s == 0
    ensures r % 65535 == s % 65535
  {
    if s == 0 then 0
    else
      var r := 1 + (s - 1) % 65535;
      assert r % 65535 == s % 65535 by {
        var q := (s - 1) / 65535;
        assert s - 1 == q * 65535 + (s - 1) % 65535;
        AddMultiple(r, q, 65535);
      }
      r
  }

  /** It is the only 16-bit value with these two properties. */
  lemma {:induction false} OnesComplementUnique(s: nat, r: U16)
    requires (r == 0 <==> s == 0) && r % 65535 == s % 65535
    ensures OnesComplement(s) == r
  {
    var c := OnesComplement(s);
    if s != 0 {
      if r == 65535 { assert r % 65535 == 0; } else { assert r % 65535 == r; }
      if c == 65535 { assert c % 65535 == 0; } else { assert c % 65535 == c; }
    }
  }

  /** The simple definition: the complement of the one's complement sum of the words, in network order. */
  function NetworkChecksum(pseudo: seq<Octet>, data: seq<Octet>): U16
  {
    65535 - OnesComplement(NetSum(pseudo) + NetSum(data))
  }

  function HostChecksum(pseudo: seq<Octet>, data: seq<Octet>): U16
  {
    65535 - OnesComplement(HostSum(pseudo) + HostSum(data))
  }

  // ----- the program

  lemma {:induction false} HostSumBound(s: seq<Octet>)
    ensures HostSum(s) <= 65535 * ((|s| + 1) / 2)
  {
    if |s| >= 2 { HostSumBound(s[2..]); }
  }

  /** Two folds of any 32-bit sum suffice. */
  lemma {:induction false} TwoFolds(s: nat)
    requires s < M32
    ensures var s1 := s % M16 + s / M16;
            var s2 := s1 + s1 / M16;
            s1 < M32 && s2 < M32 && s2 % M16 == OnesComplement(s)
  {
    var s1 := s % M16 + s / M16;
    var s2 := s1 + s1 / M16;
    assert s == (s / M16) * 65535 + s1;
    AddMultiple(s1, s / M16, 65535);
    if s1 >= M16 {
      assert s1 / M16 == 1;
      var r := s1 - 65535;
      DivModUnique(s2, M16, 1, r);
      AddMultiple(r, 1, 65535);
      OnesComplementUnique(s, r);
    } else {
      assert s1 / M16 == 0;
      OnesComplementUnique(s, s1);
    }
  }

  /** checksum(); all sums are kept in 32 bits. */
  method Compute(pseudo: seq<Octet>, data: seq<Octet>) returns (r: U16)
    requires |pseudo| % 2 == 0 && |pseudo| + |data| <= 0x20000
    ensures r == HostChecksum(pseudo, data)
  {
    hide HostSum, OnesComplement;
    HostSumBound(pseudo);
    HostSumBound(data);
    LastByte(pseudo);
    LastByte(data);
    var sum := AddWords(0, pseudo);
    sum := AddWords(sum, data);
    if |data| % 2 == 1 {
      var last: int := data[|data| - 1];
      sum := Add32(sum, last);
    }
    r := FoldAndComplement(sum);
  }

  lemma {:induction false} LastByte(s: seq<Octet>)
    ensures HostSum(s[2 * (|s| / 2)..]) == if |s| % 2 == 1 then s[|s| - 1] else 0
  {
    var t := s[2 * (|s| / 2)..];
    assert |s| % 2 == 1 ==> t[0] == s[|s| - 1];
  }

  method FoldAndComplement(sum0: nat) returns (r: U16)
    requires sum0 < M32
    ensures r == 65535 - OnesComplement(sum0)
  {
    hide OnesComplement;
    TwoFolds(sum0);
    var s1 := Add32(sum0 % M16, sum0 / M16);
    var s2 := Add32(s1, s1 / M16);
    Complement(s2);
    r := (M32 - 1 - s2) % M16;
  }

  /** Addition in 32 bits. */
  function Add32(a: int, b: int): (c: int)
    requires 0 <= a && 0 <= b
    ensures 0 <= c < M32 && (a + b < M32 ==> c == a + b)
  {
    (a + b) % M32
  }

  lemma {:induction false} Complement(s: nat)
    requires s < M32
    ensures (M32 - 1 - s) % M16 == 65535 - s % M16
  {
    var q, r := s / M16, s % M16;
    DivModUnique(M32 - 1 - s, M16, 65535 - q, 65535 - r);
  }

  /** The loop over whole words. */
  method AddWords(sum0: nat, data: seq<Octet>) returns (sum: nat)
    requires sum0 + HostSum(data) < M32
    ensures sum + HostSum(data[2 * (|data| / 2)..]) == sum0 + HostSum(data)
  {
    sum := sum0;
    var i := 0;
    assert data[0..] == data;
    while i < |data| / 2
      invariant 0 <= i <= |data| / 2
      invariant sum + HostSum(data[2 * i..]) == sum0 + HostSum(data)
    {
      assert data[2 * i..][2..] == data[2 * (i + 1)..];
      var lo: int, hi: int := data[2 * i], data[2 * i + 1];
      sum := Add32(sum, lo + 256 * hi);
      i := i + 1;
    }
  }

  // ----- byte order

  function Swap(x: U16): U16
  {
    x % 256 * 256 + x / 256
  }

  lemma {:induction false} SwapIsTimes256(x: U16)
    ensures Swap(x) % 65535 == (256 * x) % 65535 && (Swap(x) == 0 <==> x == 0) && Swap(Swap(x)) == x
    ensures Swap(65535 - x) == 65535 - Swap(x)
  {
    var lo, hi := x % 256, x / 256;
    assert 256 * x == Swap(x) + hi * 65535;
    AddMultiple(Swap(x), hi, 65535);
    DivModUnique(Swap(x), 256, lo, hi);
    DivModUnique(65535 - x, 256, 255 - hi, 255 - lo);
  }

  lemma {:induction false} OrdersCongruent(s: seq<Octet>)
    ensures NetSum(s) % 65535 == (256 * HostSum(s)) % 65535
    ensures NetSum(s) == 0 <==> HostSum(s) == 0
  {
    if |s| >= 2 {
      OrdersCongruent(s[2..]);
      var n, h := NetSum(s[2..]), HostSum(s[2..]);
      var hi: int, lo: int := s[0], s[1];
      var w := 256 * hi + lo;
      assert 256 * HostSum(s) == (w + 256 * h) + s[1] * 65535;
      AddMultiple(w + 256 * h, s[1], 65535);
      SumCongruent(w, n, 256 * h, 65535);
    }
  }

  lemma {:induction false} SumCongruent(w: int, a: int, b: int, m: int)
    requires m > 0 && a % m == b % m
    ensures (w + a) % m == (w + b) % m
  {
    var k := b / m - a / m;
    assert w + b == (w + a) + k * m by {
      assert a == a / m * m + a % m && b == b / m * m + b % m;
      assert k * m == b / m * m - a / m * m;
    }
    AddMultiple(w + a, k, m);
  }

  lemma {:induction false} TotalsCongruent(h: nat, n: nat)
    requires n % 65535 == (256 * h) % 65535 && (n == 0 <==> h == 0)
    ensures OnesComplement(n) == Swap(OnesComplement(h))
  {
    var c := OnesComplement(h);
    SwapIsTimes256(c);
    CongruentMul(256, 256, c, h, 65535);
    OnesComplementUnique(n, Swap(c));
  }

  /**
   The value computed in host order and stored by a little-endian machine is, byte for byte, the value
   computed in network order and stored in network order.
   */
  lemma {:induction false} ByteOrderIndependent(pseudo: seq<Octet>, data: seq<Octet>)
    ensures NetworkChecksum(pseudo, data) == Swap(HostChecksum(pseudo, data))
  {
    hide HostSum, NetSum, OnesComplement, Swap;
    OrdersCongruent(pseudo);
    OrdersCongruent(data);
    var h, n := HostSum(pseudo) + HostSum(data), NetSum(pseudo) + NetSum(data);
    SumCongruent(NetSum(pseudo), NetSum(data), 256 * HostSum(data), 65535);
    SumCongruent(256 * HostSum(data), NetSum(pseudo), 256 * HostSum(pseudo), 65535);
    TotalsCongruent(h, n);
    SwapIsTimes256(OnesComplement(h));
  }

  // ----- storing the checksum

  /** The value r stored at k by a little-endian machine. */
  function Store(s: seq<Octet>, k: nat, r: U16): (t: seq<Octet>)
    requires k + 1 < |s|
    ensures |t| == |s| && t[k] == r % 256 && t[k + 1] == r / 256
    ensures forall i :: 0 <= i < |s| && i != k && i != k + 1 ==> t[i] == s[i]
  {
    s[k := r % 256][k + 1 := r / 256]
  }

  lemma {:induction false} StoreAdds(s: seq<Octet>, k: nat, r: U16)
    requires k % 2 == 0 && k + 1 < |s| && s[k] == 0 && s[k + 1] == 0
    ensures HostSum(Store(s, k, r)) == HostSum(s) + r
    decreases k
  {
    if k == 0 {
      assert Store(s, k, r)[2..] == s[2..];
    } else {
      assert Store(s, k, r)[2..] == Store(s[2..], k - 2, r);
      StoreAdds(s[2..], k - 2, r);
    }
  }

  lemma {:induction false} SelfCancelling(s: nat)
    ensures OnesComplement(s + (65535 - OnesComplement(s))) == 65535
  {
    var c := OnesComplement(s);
    var t := s + (65535 - c);
    var k := s / 65535 - c / 65535 + 1;
    assert s == s / 65535 * 65535 + s % 65535 && c == c / 65535 * 65535 + c % 65535;
    assert t == k * 65535;
    DivModUnique(t, 65535, k, 0);
    OnesComplementUnique(t, 65535);
  }

  /** The checksum of the data with its field zeroed, stored in the field, makes a re-check return 0. */
  lemma {:induction false} RecheckIsZero(pseudo: seq<Octet>, data: seq<Octet>, k: nat)
    requires k % 2 == 0 && k + 1 < |data| && data[k] == 0 && data[k + 1] == 0
    ensures HostChecksum(pseudo, Store(data, k, HostChecksum(pseudo, data))) == 0
  {
    StoreAdds(data, k, HostChecksum(pseudo, data));
    SelfCancelling(HostSum(pseudo) + HostSum(data));
  }
}
