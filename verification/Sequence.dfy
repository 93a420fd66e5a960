/** The sequence-number permutation, and why no counter block is ever used twice. */
module Sequence {
  import opened Common
  import opened Arith
  import opened Bytes
  import opened Ctr

  const DELTA: nat := 0x9E37
  const ROUNDS: nat := 8

  datatype Halves = Halves(v0: U16, v1: U16)

  /** The 16-bit quarters of the 64-bit sequence key, lowest first. */
  datatype SeqKey = SeqKey(k0: U16, k1: U16, k2: U16, k3: U16)

  /** The two mixing functions of a round, as functions of the other half and the running sum. */
  datatype Mixer = Mixer(f: (U16, U16) -> nat, g: (U16, U16) -> nat)

  function Mix(v: U16, sum: U16, ka: U16, kb: U16): nat
  {
    Xor(Xor(4 * v + ka, v + sum), v / 8 + kb)
  }

  function MixerOf(key: SeqKey): Mixer
  {
    Mixer((v, sum) => Mix(v, sum, key.k0, key.k1), (v, sum) => Mix(v, sum, key.k2, key.k3))
  }

  function Sum(i: nat): U16
  {
    if i == 0 then 0 else (Sum(i - 1) + DELTA) % M16
  }

  function Round(h: Halves, m: Mixer, sum: U16): Halves
  {
    var v0 := (h.v0 + m.f(h.v1, sum)) % M16;
    Halves(v0, (h.v1 + m.g(v0, sum)) % M16)
  }

  function Unround(h: Halves, m: Mixer, sum: U16): Halves
  {
    var v1 := (h.v1 - m.g(h.v0, sum)) % M16;
    Halves((h.v0 - m.f(v1, sum)) % M16, v1)
  }

  function Forward(h: Halves, m: Mixer, n: nat): Halves
  {
    if n == 0 then h else Round(Forward(h, m, n - 1), m, Sum(n))
  }

  function Backward(h: Halves, m: Mixer, n: nat): Halves
    decreases n
  {
    if n == 0 then h else Backward(Unround(h, m, Sum(n)), m, n - 1)
  }

  function Split(s: nat): Halves
  {
    Halves(s % M16, s / M16 % M16)
  }

  function Join(h: Halves): (s: nat)
    ensures s < M32
  {
    h.v0 + h.v1 * M16
  }

  function Permute(s: nat, key: SeqKey): (r: nat)
    ensures r < M32
  {
    Join(Forward(Split(s), MixerOf(key), ROUNDS))
  }

  function Unpermute(s: nat, key: SeqKey): (r: nat)
    ensures r < M32
  {
    Join(Backward(Split(s), MixerOf(key), ROUNDS))
  }

  method RunRounds(h: Halves, m: Mixer) returns (r: Halves)
    ensures r == Forward(h, m, ROUNDS)
  {
    var v0: U16, v1: U16, sum: U16 := h.v0, h.v1, 0;
    var i := 0;
    while i < ROUNDS
      invariant 0 <= i <= ROUNDS && sum == Sum(i)
      invariant Halves(v0, v1) == Forward(h, m, i)
    {
      sum := (sum + DELTA) % M16;
      v0 := (v0 + m.f(v1, sum)) % M16;
      v1 := (v1 + m.g(v0, sum)) % M16;
      i := i + 1;
    }
    r := Halves(v0, v1);
  }

  /** crypt_seq: eight rounds on 16-bit halves. */
  method CryptSeq(s: nat, key: SeqKey) returns (r: nat)
    requires s < M32
    ensures r == Permute(s, key)
  {
    var h := RunRounds(Split(s), MixerOf(key));
    r := Join(h);
  }

  lemma {:induction false} WrapUndo(v: U16, x: int)
    ensures ((v + x) % M16 - x) % M16 == v && ((v - x) % M16 + x) % M16 == v
  {
    AddMultiple(v, -((v + x) / M16), M16);
    AddMultiple(v, -((v - x) / M16), M16);
  }

  lemma {:induction false} RoundInverse(h: Halves, m: Mixer, sum: U16)
    ensures Unround(Round(h, m, sum), m, sum) == h && Round(Unround(h, m, sum), m, sum) == h
  {
    var r, u := Round(h, m, sum), Unround(h, m, sum);
    WrapUndo(h.v1, m.g(r.v0, sum));
    WrapUndo(h.v0, m.f(h.v1, sum));
    WrapUndo(h.v0, m.f(u.v1, sum));
    WrapUndo(h.v1, m.g(h.v0, sum));
  }

  lemma {:induction false} BackwardForward(h: Halves, m: Mixer, n: nat)
    ensures Backward(Forward(h, m, n), m, n) == h
  {
    if n == 0 {
    } else {
      RoundInverse(Forward(h, m, n - 1), m, Sum(n));
      BackwardForward(h, m, n - 1);
    }
  }

  lemma {:induction false} ForwardBackward(h: Halves, m: Mixer, n: nat)
    ensures Forward(Backward(h, m, n), m, n) == h
    decreases n
  {
    if n == 0 {
    } else {
      ForwardBackward(Unround(h, m, Sum(n)), m, n - 1);
      RoundInverse(h, m, Sum(n));
    }
  }

  lemma {:induction false} SplitJoin(h: Halves)
    ensures Split(Join(h)) == h
  {
    AddMultiple(h.v0, h.v1, M16);
  }

  lemma {:induction false} JoinSplit(s: nat)
    requires s < M32
    ensures Join(Split(s)) == s
  {
  }

  /** For every key the permutation is a bijection of 32-bit numbers. */
  lemma {:induction false} PermuteBijective(s: nat, key: SeqKey)
    requires s < M32
    ensures Unpermute(Permute(s, key), key) == s
    ensures Permute(Unpermute(s, key), key) == s
  {
    JoinSplit(s);
    SplitJoin(Forward(Split(s), MixerOf(key), ROUNDS));
    BackwardForward(Split(s), MixerOf(key), ROUNDS);
    SplitJoin(Backward(Split(s), MixerOf(key), ROUNDS));
    ForwardBackward(Split(s), MixerOf(key), ROUNDS);
  }

  /** The sequence number of a sender's n-th packet, the counter starting anywhere and wrapping. */
  function PacketSeq(seed: nat, key: SeqKey, n: nat): nat
  {
    Permute((seed + n) % M32, key)
  }

  lemma {:induction false} BlockFields(iv: Iv, sn: nat, k: nat, iv': Iv, sn': nat, k': nat)
    requires |iv| == |iv'| && sn < M32 && sn' < M32 && CounterBlock(iv, sn, k) == CounterBlock(iv', sn', k')
    ensures iv == iv' && sn == sn' && k % COUNTERS == k' % COUNTERS
  {
    var b, n := CounterBlock(iv, sn, k), |iv|;
    assert iv == b[..n] == iv';
    assert LeBytes(sn, 4) == b[n..n + 4] == LeBytes(sn', 4);
    assert LeBytes(k % COUNTERS, 2) == b[14..] == LeBytes(k' % COUNTERS, 2);
    assert Pow(256, 4) == M32 && Pow(256, 2) == COUNTERS;
    LeInjective(sn, sn', 4);
    LeInjective(k % COUNTERS, k' % COUNTERS, 2);
  }

  /**
   Over 2^32 consecutive packets of one sender, whatever the vectors drawn, the cipher inputs of different
   packets differ, and so do those of one packet whose block numbers differ modulo 2^16.
   */
  lemma {:induction false} CounterBlocksDistinct(seed: nat, key: SeqKey, iv: Iv, n: nat, k: nat, iv': Iv, n': nat,
      k': nat)
    requires |iv| == |iv'| && n <= n' < n + M32 && (n != n' || k % COUNTERS != k' % COUNTERS)
    ensures CounterBlock(iv, PacketSeq(seed, key, n), k) != CounterBlock(iv', PacketSeq(seed, key, n'), k')
  {
    hide CounterBlock, Permute;
    if CounterBlock(iv, PacketSeq(seed, key, n), k) == CounterBlock(iv', PacketSeq(seed, key, n'), k') {
      BlockFields(iv, PacketSeq(seed, key, n), k, iv', PacketSeq(seed, key, n'), k');
      PermuteInjective((seed + n) % M32, (seed + n') % M32, key);
      SameResidue(seed + n, seed + n', M32);
    }
  }

  lemma {:induction false} PermuteInjective(s: nat, s': nat, key: SeqKey)
    requires s < M32 && s' < M32 && Permute(s, key) == Permute(s', key)
    ensures s == s'
  {
    PermuteBijective(s, key);
    PermuteBijective(s', key);
  }

  lemma {:induction false} SameResidue(a: nat, b: nat, m: nat)
    requires m > 0 && a <= b < a + m && a % m == b % m
    ensures a == b
  {
    var q := b / m - a / m;
    assert b - a == q * m by { assert (b / m - a / m) * m == (b / m) * m - (a / m) * m; }
    assert q >= 1 ==> q * m >= m;
  }

  // ----- the permutation as a trace

  /** One round of the program: first the low half from the high one, then the high half from the new low one. */
  ghost predicate Follows(h: Halves, next: Halves, key: SeqKey, sum: nat)
  {
    && next.v0 == (h.v0 + Xor(Xor(4 * h.v1 + key.k0, h.v1 + sum), h.v1 / 8 + key.k1)) % 0x10000
    && next.v1 == (h.v1 + Xor(Xor(4 * next.v0 + key.k2, next.v0 + sum), next.v0 / 8 + key.k3)) % 0x10000
  }

  lemma {:induction false} SumIsMultiple(i: nat)
    ensures Sum(i) == i * 0x9E37 % 0x10000
  {
    if i == 0 {
    } else {
      SumIsMultiple(i - 1);
      var q := (i - 1) * 0x9E37 / 0x10000;
      assert i * 0x9E37 == ((i - 1) * 0x9E37 % 0x10000 + 0x9E37) + q * 0x10000;
      AddMultiple((i - 1) * 0x9E37 % 0x10000 + 0x9E37, q, 0x10000);
    }
  }

  lemma {:induction false} RoundFollows(h: Halves, key: SeqKey, sum: U16, next: Halves)
    ensures Follows(h, next, key, sum) <==> next == Round(h, MixerOf(key), sum)
  {
    hide Xor;
  }

  lemma {:induction false} TraceIsForward(trace: seq<Halves>, key: SeqKey, n: nat)
    requires n < |trace| && forall i :: 0 <= i < n ==> Follows(trace[i], trace[i + 1], key, (i + 1) * 0x9E37 % 0x10000)
    ensures trace[n] == Forward(trace[0], MixerOf(key), n)
  {
    hide Follows, Round, MixerOf;
    if n == 0 {
    } else {
      TraceIsForward(trace, key, n - 1);
      SumIsMultiple(n);
      RoundFollows(trace[n - 1], key, Sum(n), trace[n]);
    }
  }

  /** Eight rounds, with the round constant added up each time, lead from the halves of s to those of its image. */
  lemma {:induction false} PermuteIsEightRounds(s: nat, key: SeqKey, trace: seq<Halves>)
    requires s < M32 && |trace| == 9 && trace[0].v0 == s % 0x10000 && trace[0].v1 == s / 0x10000
    requires forall i :: 0 <= i < 8 ==> Follows(trace[i], trace[i + 1], key, (i + 1) * 0x9E37 % 0x10000)
    ensures Permute(s, key) == trace[8].v0 + 0x10000 * trace[8].v1
  {
    hide Follows, Round, MixerOf, Forward;
    TraceIsForward(trace, key, 8);
  }
}
