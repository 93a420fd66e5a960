/**
 What the MAC depends on: for a cipher that is injective, every change of one message block and of the start
 block.
 */
module MacChain {
  import opened Bytes
  import opened Ctr

  /** Different blocks have different encryptions. */
  ghost predicate Injective(c: Cipher, ekey: seq<Octet>)
  {
    forall x: Block, y: Block :: c.encrypt(x, ekey) == c.encrypt(y, ekey) ==> x == y
  }

  lemma {:induction false} XorCancels(x: Octet, y: Octet, k: Octet)
    ensures XorOctet(x, k) == XorOctet(y, k) ==> x == y
    ensures XorOctet(k, x) == XorOctet(k, y) ==> x == y
  {
    if Xor(x, k) == Xor(y, k) || Xor(k, x) == Xor(k, y) { XorInjective(x, y, k); }
  }

  lemma {:induction false} AbsorbKeepsApart(b: Block, b': Block, part: seq<Octet>)
    requires |part| <= BLOCK && b != b'
    ensures Absorb(b, part) != Absorb(b', part)
  {
    hide XorOctet;
    var i :| 0 <= i < BLOCK && b[i] != b'[i];
    if i < |part| { XorCancels(b[i], b'[i], part[i]); }
    assert Absorb(b, part)[i] != Absorb(b', part)[i];
  }

  lemma {:induction false} AbsorbTakesAll(b: Block, part: seq<Octet>, part': seq<Octet>)
    requires |part| == |part'| <= BLOCK && part != part'
    ensures Absorb(b, part) != Absorb(b, part')
  {
    hide XorOctet;
    var i :| 0 <= i < |part| && part[i] != part'[i];
    XorCancels(part[i], part'[i], b[i]);
    assert Absorb(b, part)[i] != Absorb(b, part')[i];
  }

  /** Block t of a message, which may be the partial one at its end. */
  function Part(m: seq<Octet>, t: nat): seq<Octet>
    requires BLOCK * t <= |m|
  {
    if BLOCK * (t + 1) <= |m| then m[BLOCK * t..BLOCK * (t + 1)] else m[BLOCK * t..]
  }

  /** Equally long messages that differ in block t and nowhere else. */
  ghost predicate DifferAt(m: seq<Octet>, m': seq<Octet>, t: nat)
  {
    && |m| == |m'| && BLOCK * t <= |m| && Part(m, t) != Part(m', t)
    && forall i :: 0 <= i < |m| && i / BLOCK != t ==> m[i] == m'[i]
  }

  lemma {:induction false} SamePart(m: seq<Octet>, m': seq<Octet>, t: nat, u: nat)
    requires DifferAt(m, m', t) && u != t && BLOCK * u <= |m|
    ensures Part(m, u) == Part(m', u)
  {
    var x, y := Part(m, u), Part(m', u);
    forall i | 0 <= i < |x| ensures x[i] == y[i] {
      assert (BLOCK * u + i) / BLOCK == u;
      assert m[BLOCK * u + i] == m'[BLOCK * u + i];
    }
  }

  lemma {:induction false} SameLength(m: seq<Octet>, m': seq<Octet>, t: nat)
    requires DifferAt(m, m', t)
    ensures |m| == |m'|
  {
  }

  lemma {:induction false} ChainStep(c: Cipher, ekey: seq<Octet>, init: Block, m: seq<Octet>, u: nat)
    requires BLOCK * (u + 1) <= |m|
    ensures Chain(c, ekey, init, m, u + 1) == c.encrypt(Absorb(Chain(c, ekey, init, m, u), Part(m, u)), ekey)
  {
    hide Absorb;
  }

  /** The chains agree up to block t and differ ever after. */
  lemma {:induction false} ChainDiffers(c: Cipher, ekey: seq<Octet>, init: Block, m: seq<Octet>, m': seq<Octet>, t: nat,
      n: nat)
    requires Injective(c, ekey) && DifferAt(m, m', t) && BLOCK * n <= |m|
    ensures Chain(c, ekey, init, m, n) == Chain(c, ekey, init, m', n) <==> n <= t
  {
    hide Absorb, Injective, DifferAt;
    if n == 0 {
    } else {
      var u := n - 1;
      ChainDiffers(c, ekey, init, m, m', t, u);
      SameLength(m, m', t);
      ChainStep(c, ekey, init, m, u);
      ChainStep(c, ekey, init, m', u);
      StepDiffers(c, ekey, Chain(c, ekey, init, m, u), Chain(c, ekey, init, m', u), m, m', t, u);
    }
  }

  /** One more block, whole or partial. */
  lemma {:induction false} StepDiffers(c: Cipher, ekey: seq<Octet>, x: Block, x': Block, m: seq<Octet>, m': seq<Octet>,
      t: nat, u: nat)
    requires Injective(c, ekey) && DifferAt(m, m', t) && BLOCK * u <= |m| && (x == x' <==> u <= t)
    ensures c.encrypt(Absorb(x, Part(m, u)), ekey) == c.encrypt(Absorb(x', Part(m', u)), ekey) <==> u < t
  {
    hide Absorb;
    if u == t {
      AbsorbTakesAll(x, Part(m, u), Part(m', u));
    } else {
      SamePart(m, m', t, u);
      if u > t { AbsorbKeepsApart(x, x', Part(m, u)); }
    }
  }

  /**
   The MAC's final block depends on every message block: two messages of equal length that differ within one block of
   the length-prefixed message end in different blocks.
   */
  lemma {:induction false} FinalBlockDiffers(c: Cipher, ekey: seq<Octet>, iv: Iv, sn: nat, data: seq<Octet>,
      data': seq<Octet>, t: nat)
    requires Injective(c, ekey) && |data| == |data'| && data != data'
    requires forall i :: 0 <= i < |data| && (i + 2) / BLOCK != t ==> data[i] == data'[i]
    ensures FinalBlock(c, ekey, iv, sn, data) != FinalBlock(c, ekey, iv, sn, data')
  {
    hide Absorb, LeBytes, CounterBlock, Injective;
    var len := LeBytes(|data| % 0x10000, 2);
    var m, m', init := len + data, len + data', CounterBlock(iv, sn, 0);
    PrefixedDiffer(len, data, data', t);
    var n := |m| / BLOCK;
    ChainDiffers(c, ekey, init, m, m', t, n);
    if |m| % BLOCK != 0 {
      StepDiffers(c, ekey, Chain(c, ekey, init, m, n), Chain(c, ekey, init, m', n), m, m', t, n);
    }
  }

  lemma {:induction false} PrefixedDiffer(len: seq<Octet>, data: seq<Octet>, data': seq<Octet>, t: nat)
    requires |len| == 2 && |data| == |data'| && data != data'
    requires forall i :: 0 <= i < |data| && (i + 2) / BLOCK != t ==> data[i] == data'[i]
    ensures DifferAt(len + data, len + data', t)
    ensures t < |len + data| / BLOCK || (t == |len + data| / BLOCK && |len + data| % BLOCK != 0)
  {
    var m, m' := len + data, len + data';
    var k :| 0 <= k < |data| && data[k] != data'[k];
    assert m[k + 2] == data[k] && m'[k + 2] == data'[k];
    var j := (k + 2) % BLOCK;
    assert k + 2 == BLOCK * t + j;
    assert Part(m, t)[j] == m[k + 2] && Part(m', t)[j] == m'[k + 2];
    forall i | 0 <= i < |m| && i / BLOCK != t ensures m[i] == m'[i] {
      if i >= 2 { assert m[i] == data[i - 2] && m'[i] == data'[i - 2]; }
    }
  }

  lemma {:induction false} ChainsApart(c: Cipher, ekey: seq<Octet>, init: Block, init': Block, m: seq<Octet>, n: nat)
    requires Injective(c, ekey) && BLOCK * n <= |m| && init != init'
    ensures Chain(c, ekey, init, m, n) != Chain(c, ekey, init', m, n)
  {
    hide Absorb;
    if n == 0 {
    } else {
      ChainsApart(c, ekey, init, init', m, n - 1);
      AbsorbKeepsApart(Chain(c, ekey, init, m, n - 1), Chain(c, ekey, init', m, n - 1),
                       m[BLOCK * (n - 1)..BLOCK * n]);
    }
  }

  /** The same message under different start blocks, so under different vectors or numbers, ends in different blocks. */
  lemma {:induction false} FinalBlockBinds(c: Cipher, ekey: seq<Octet>, iv: Iv, sn: nat, iv': Iv, sn': nat,
      data: seq<Octet>)
    requires Injective(c, ekey) && CounterBlock(iv, sn, 0) != CounterBlock(iv', sn', 0)
    ensures FinalBlock(c, ekey, iv, sn, data) != FinalBlock(c, ekey, iv', sn', data)
  {
    hide Absorb, LeBytes, CounterBlock;
    var init, init' := CounterBlock(iv, sn, 0), CounterBlock(iv', sn', 0);
    var m := LeBytes(|data| % 0x10000, 2) + data;
    var n := |m| / BLOCK;
    ChainsApart(c, ekey, init, init', m, n);
    if |m| % BLOCK != 0 {
      AbsorbKeepsApart(Chain(c, ekey, init, m, n), Chain(c, ekey, init', m, n), m[BLOCK * n..]);
    }
  }

  /** The MAC is the first eight bytes of the final block, no more and no less. */
  lemma {:induction false} MacIsPrefix(c: Cipher, ekey: seq<Octet>, iv: Iv, sn: nat, data: seq<Octet>)
    ensures LeBytes(Mac(c, ekey, iv, sn, data), 8) == FinalBlock(c, ekey, iv, sn, data)[..8]
  {
    hide FinalBlock, LeBytes, LeValue;
    LeRoundTripBytes(FinalBlock(c, ekey, iv, sn, data)[..8]);
  }

  // ----- the length prefix

  function Zeros(n: nat): (z: seq<Octet>)
    ensures |z| == n && forall i :: 0 <= i < n ==> z[i] == 0
  {
    seq(n, _ => 0)
  }

  /** A message filled up to whole blocks. */
  function Filled(m: seq<Octet>): (f: seq<Octet>)
    ensures |f| % BLOCK == 0 && |m| <= |f| < |m| + BLOCK && f[..|m|] == m
  {
    m + Zeros((BLOCK - |m| % BLOCK) % BLOCK)
  }

  lemma {:induction false} AbsorbZeros(b: Block, part: seq<Octet>, n: nat)
    requires |part| + n <= BLOCK
    ensures Absorb(b, part + Zeros(n)) == Absorb(b, part)
  {
    forall i | |part| <= i < |part| + n ensures XorOctet(b[i], 0) == b[i] {
      XorZero(b[i]);
    }
  }

  lemma {:induction false} ChainSame(c: Cipher, ekey: seq<Octet>, init: Block, m: seq<Octet>, f: seq<Octet>, n: nat)
    requires BLOCK * n <= |m| <= |f| && f[..|m|] == m
    ensures Chain(c, ekey, init, m, n) == Chain(c, ekey, init, f, n)
  {
    hide Absorb;
    if n == 0 {
    } else {
      ChainSame(c, ekey, init, m, f, n - 1);
      assert m[BLOCK * (n - 1)..BLOCK * n] == f[..|m|][BLOCK * (n - 1)..BLOCK * n] == f[BLOCK * (n - 1)..BLOCK * n];
    }
  }

  /** The final block is the chaining value of the filled message. */
  lemma {:induction false} FinalIsChain(c: Cipher, ekey: seq<Octet>, iv: Iv, sn: nat, data: seq<Octet>)
    ensures var f := Filled(LeBytes(|data| % 0x10000, 2) + data);
            FinalBlock(c, ekey, iv, sn, data) == Chain(c, ekey, CounterBlock(iv, sn, 0), f, |f| / BLOCK)
  {
    hide Absorb, LeBytes, CounterBlock;
    var init, m := CounterBlock(iv, sn, 0), LeBytes(|data| % 0x10000, 2) + data;
    var f, n := Filled(m), |m| / BLOCK;
    ChainSame(c, ekey, init, m, f, n);
    if |m| % BLOCK == 0 {
      assert f == m;
    } else {
      assert |f| / BLOCK == n + 1;
      assert f[BLOCK * n..BLOCK * (n + 1)] == m[BLOCK * n..] + Zeros(BLOCK - |m| % BLOCK);
      AbsorbZeros(Chain(c, ekey, init, m, n), m[BLOCK * n..], BLOCK - |m| % BLOCK);
    }
  }

  /**
   Length strengthening: a message and the same message with zeros appended within its last block, which fill up to the
   same blocks, still end in different blocks.
   */
  lemma {:induction false} LengthIsBound(c: Cipher, ekey: seq<Octet>, iv: Iv, sn: nat, data: seq<Octet>, n: nat)
    requires Injective(c, ekey) && 0 < n && |data| + n < 0x10000
    requires |Filled(Zeros(2) + data)| == |Filled(Zeros(2) + (data + Zeros(n)))|
    ensures FinalBlock(c, ekey, iv, sn, data) != FinalBlock(c, ekey, iv, sn, data + Zeros(n))
  {
    hide Absorb, LeBytes, CounterBlock, Injective, Chain;
    var data' := data + Zeros(n);
    var len, len' := LeBytes(|data| % 0x10000, 2), LeBytes(|data'| % 0x10000, 2);
    var f, f' := Filled(len + data), Filled(len' + data');
    FinalIsChain(c, ekey, iv, sn, data);
    FinalIsChain(c, ekey, iv, sn, data');
    LengthsDiffer(|data|, |data'|);
    FilledDiffer(len, len', data, n);
    ChainDiffers(c, ekey, CounterBlock(iv, sn, 0), f, f', 0, |f| / BLOCK);
  }

  lemma {:induction false} LengthsDiffer(a: nat, b: nat)
    requires a < b < 0x10000
    ensures LeBytes(a % 0x10000, 2) != LeBytes(b % 0x10000, 2)
  {
    hide LeBytes;
    if LeBytes(a % 0x10000, 2) == LeBytes(b % 0x10000, 2) {
      CounterValue(a);
      CounterValue(b);
    }
  }

  lemma {:induction false} FilledDiffer(len: seq<Octet>, len': seq<Octet>, data: seq<Octet>, n: nat)
    requires |len| == |len'| == 2 && len != len'
    requires |Filled(len + data)| == |Filled(len' + (data + Zeros(n)))|
    ensures DifferAt(Filled(len + data), Filled(len' + (data + Zeros(n))), 0)
  {
    var f, f' := Filled(len + data), Filled(len' + (data + Zeros(n)));
    forall i | 2 <= i < |f| ensures f[i] == f'[i] {
      if i < 2 + |data| { assert f[i] == data[i - 2] && f'[i] == data[i - 2]; }
    }
    var k :| 0 <= k < 2 && len[k] != len'[k];
    assert f[k] == len[k] && f'[k] == len'[k];
    assert Part(f, 0)[k] != Part(f', 0)[k];
  }
}
