/**
 The crypt encoding's cipher modes: counter mode with a CBC-style MAC computed in the same pass.
 The block cipher itself is a parameter.
 */
module Ctr {
  import opened Arith
  import opened Digits
  import opened Bytes
  import opened Buffers

  const BLOCK: nat := 16
  const COUNTERS: nat := 0x10000
  const HEADER_SEQ: nat := 0x243F6A88

  type Block = s: seq<Octet> | |s| == BLOCK witness seq(BLOCK, _ => 0)

  datatype Cipher = Cipher(expand: seq<Octet> -> seq<Octet>, encrypt: (Block, seq<Octet>) -> Block)

  /** Initialisation vectors leave the counter bytes free. */
  type Iv = s: seq<Octet> | |s| <= 10 witness []

  /** The k-th counter block: iv, sequence number, zeros, and a 16-bit counter that wraps. */
  function CounterBlock(iv: Iv, sn: nat, k: nat): Block
  {
    iv + LeBytes(sn, 4) + seq(10 - |iv|, _ => 0) + LeBytes(k % COUNTERS, 2)
  }

  // ----- block_init and the counter

  method BlockInit(iv: Iv, sn: nat) returns (block: array<Octet>)
    ensures fresh(block) && block.Length == BLOCK && block[..] == CounterBlock(iv, sn, 0)
  {
    block := new Octet[BLOCK];
    var i := 0;
    while i < |iv|
      invariant 0 <= i <= |iv|
      invariant forall k :: 0 <= k < i ==> block[k] == iv[k]
    {
      block[i] := iv[i];
      i := i + 1;
    }
    var j := 0;
    while j < 4
      invariant 0 <= j <= 4 && i == |iv| + j
      invariant forall k :: 0 <= k < |iv| ==> block[k] == iv[k]
      invariant forall k :: 0 <= k < j ==> block[|iv| + k] == LeBytes(sn, 4)[k]
    {
      block[i] := LeBytes(sn, 4)[j];
      i, j := i + 1, j + 1;
    }
    while i < BLOCK
      invariant |iv| + 4 <= i <= BLOCK
      invariant forall k :: 0 <= k < |iv| ==> block[k] == iv[k]
      invariant forall k :: 0 <= k < 4 ==> block[|iv| + k] == LeBytes(sn, 4)[k]
      invariant forall k :: |iv| + 4 <= k < i ==> block[k] == 0
    {
      block[i] := 0;
      i := i + 1;
    }
    ZeroCounter();
    assert block[..] == CounterBlock(iv, sn, 0);
  }

  lemma {:induction false} ZeroCounter()
    ensures LeBytes(0, 2) == [0, 0]
  {
    PowPositive(256, 1);
    assert DigitAt(0, 256, 0) == 0 && DigitAt(0, 256, 1) == 0;
  }

  /** The 16-bit increment at offset 14. */
  method BumpCounter(block: array<Octet>, ghost iv: Iv, ghost sn: nat, ghost k: nat)
    requires block.Length == BLOCK && block[..] == CounterBlock(iv, sn, k)
    modifies block
    ensures block[..] == CounterBlock(iv, sn, k + 1)
  {
    hide LeValue, DigitAt;
    assert block[14..] == LeBytes(k % COUNTERS, 2);
    CounterValue(k % COUNTERS);
    var v := LeValue(block[14..]);
    var bytes := LeBytes((v + 1) % COUNTERS, 2);
    block[14], block[15] := bytes[0], bytes[1];
    assert (v + 1) % COUNTERS == (k + 1) % COUNTERS;
    assert block[..] == CounterBlock(iv, sn, k + 1);
  }

  lemma {:induction false} CounterValue(c: nat)
    requires c < COUNTERS
    ensures LeValue(LeBytes(c, 2)) == c
  {
    LeRoundTrip(c, 2);
    assert Pow(256, 2) == COUNTERS;
  }

  // ----- the key stream

  /** Byte i of the key stream: blocks in counter order, each used from its last byte down. */
  function KeyByte(c: Cipher, ekey: seq<Octet>, iv: Iv, sn: nat, i: nat): Octet
  {
    c.encrypt(CounterBlock(iv, sn, i / BLOCK), ekey)[BLOCK - 1 - i % BLOCK]
  }

  function Mask(c: Cipher, ekey: seq<Octet>, iv: Iv, sn: nat, data: seq<Octet>): (r: seq<Octet>)
    ensures |r| == |data|
  {
    seq(|data|, i requires 0 <= i < |data| => XorOctet(data[i], KeyByte(c, ekey, iv, sn, i)))
  }

  /** Masking undoes masking. */
  lemma {:induction false} MaskTwice(c: Cipher, ekey: seq<Octet>, iv: Iv, sn: nat, data: seq<Octet>)
    ensures Mask(c, ekey, iv, sn, Mask(c, ekey, iv, sn, data)) == data
  {
    forall i | 0 <= i < |data|
      ensures XorOctet(XorOctet(data[i], KeyByte(c, ekey, iv, sn, i)), KeyByte(c, ekey, iv, sn, i)) == data[i]
    {
      XorTwice(data[i], KeyByte(c, ekey, iv, sn, i));
    }
  }

  // ----- the MAC

  /** Exclusive or of a partial block into the front of a block. */
  function Absorb(b: Block, part: seq<Octet>): Block
    requires |part| <= BLOCK
  {
    seq(BLOCK, i requires 0 <= i < BLOCK => if i < |part| then XorOctet(b[i], part[i]) else b[i])
  }

  /** The CBC chaining value after t whole blocks. */
  function Chain(c: Cipher, ekey: seq<Octet>, init: Block, m: seq<Octet>, t: nat): Block
    requires BLOCK * t <= |m|
  {
    if t == 0 then init
    else c.encrypt(Absorb(Chain(c, ekey, init, m, t - 1), m[BLOCK * (t - 1)..BLOCK * t]), ekey)
  }

  /** The last chaining block of the length-prefixed message, a final partial block being zero-extended. */
  function FinalBlock(c: Cipher, ekey: seq<Octet>, iv: Iv, sn: nat, data: seq<Octet>): Block
  {
    var init, m := CounterBlock(iv, sn, 0), LeBytes(|data| % 0x10000, 2) + data;
    var t := |m| / BLOCK;
    var chain := Chain(c, ekey, init, m, t);
    if |m| % BLOCK == 0 then chain else c.encrypt(Absorb(chain, m[BLOCK * t..]), ekey)
  }

  /** CBC-MAC: the first eight bytes of the last chaining block. */
  function Mac(c: Cipher, ekey: seq<Octet>, iv: Iv, sn: nat, data: seq<Octet>): nat
  {
    LeValue(FinalBlock(c, ekey, iv, sn, data)[..8])
  }

  /** The MAC state after the first n message bytes: a chaining value with a partial block mixed in. */
  ghost function MacState(c: Cipher, ekey: seq<Octet>, init: Block, m: seq<Octet>, n: nat): Block
    requires n <= |m|
  {
    Absorb(Chain(c, ekey, init, m, n / BLOCK), m[BLOCK * (n / BLOCK)..n])
  }

  /** One message byte: mac_block[m++] ^= x, and a cipher call when the block fills up. */
  method MacByte(c: Cipher, ekey: seq<Octet>, mac: Block, x: Octet, at: nat,
                 ghost init: Block, ghost m: seq<Octet>, ghost n: nat)
    returns (mac': Block, at': nat)
    requires n < |m| && m[n] == x && at == n % BLOCK && mac == MacState(c, ekey, init, m, n)
    ensures at' == (n + 1) % BLOCK && mac' == MacState(c, ekey, init, m, n + 1)
  {
    mac', at' := mac[at := XorOctet(mac[at], x)], at + 1;
    ghost var t := n / BLOCK;
    ghost var chain := Chain(c, ekey, init, m, t);
    assert mac' == Absorb(chain, m[BLOCK * t..n + 1]);
    if at' == BLOCK {
      mac', at' := c.encrypt(mac', ekey), 0;
      assert n + 1 == BLOCK * (t + 1);
      assert mac' == Chain(c, ekey, init, m, t + 1);
      assert (n + 1) / BLOCK == t + 1;
      assert m[n + 1..n + 1] == [];
      assert Absorb(mac', []) == mac';
    } else {
      assert (n + 1) / BLOCK == t;
    }
  }

  /** The MAC computation positioned before plaintext byte n. */
  ghost predicate MacAt(c: Cipher, ekey: seq<Octet>, iv: Iv, sn: nat, p: seq<Octet>, n: nat, mac: Block, at: nat)
    requires n <= |p|
  {
    && at == (2 + n) % BLOCK
    && mac == MacState(c, ekey, CounterBlock(iv, sn, 0), LeBytes(|p| % 0x10000, 2) + p, 2 + n)
  }

  method MacNext(c: Cipher, ekey: seq<Octet>, mac: Block, x: Octet, at: nat,
                 ghost iv: Iv, ghost sn: nat, ghost p: seq<Octet>, ghost n: nat)
    returns (mac': Block, at': nat)
    requires n < |p| && p[n] == x && MacAt(c, ekey, iv, sn, p, n, mac, at)
    ensures MacAt(c, ekey, iv, sn, p, n + 1, mac', at')
  {
    mac', at' := MacByte(c, ekey, mac, x, at, CounterBlock(iv, sn, 0), LeBytes(|p| % 0x10000, 2) + p, 2 + n);
  }

  // ----- encrypt, decrypt, crypt

  /** The key stream positioned before byte i: j bytes of the current key block are left. */
  ghost predicate Stream(c: Cipher, ekey: seq<Octet>, iv: Iv, sn: nat, i: nat, block: seq<Octet>, result: Block, j: nat)
  {
    && block == CounterBlock(iv, sn, (i + BLOCK - 1) / BLOCK)
    && j == (BLOCK - i % BLOCK) % BLOCK
    && (j != 0 ==> result == c.encrypt(CounterBlock(iv, sn, i / BLOCK), ekey))
  }

  lemma {:induction false} StreamPosition(i: nat, j: nat)
    requires j == (BLOCK - i % BLOCK) % BLOCK
    ensures j == 0 ==> i % BLOCK == 0 && (i + BLOCK - 1) / BLOCK == i / BLOCK && (i + BLOCK) / BLOCK == i / BLOCK + 1
    ensures j != 0 ==> j - 1 == BLOCK - 1 - i % BLOCK && (i + BLOCK - 1) / BLOCK == i / BLOCK + 1 == (i + BLOCK) / BLOCK
    ensures BLOCK - 1 - i % BLOCK == (BLOCK - (i + 1) % BLOCK) % BLOCK
    ensures i % BLOCK < BLOCK - 1 ==> (i + 1) / BLOCK == i / BLOCK
  {
  }

  /** Refills the key block when it is used up (j == 0), then steps j down to the byte for position i. */
  method NextKeyByte(c: Cipher, ekey: seq<Octet>, block: array<Octet>, result: Block, j: nat,
                     ghost iv: Iv, ghost sn: nat, ghost i: nat)
    returns (result': Block, j': nat)
    requires block.Length == BLOCK && Stream(c, ekey, iv, sn, i, block[..], result, j)
    modifies block
    ensures j' < BLOCK && Stream(c, ekey, iv, sn, i + 1, block[..], result', j')
    ensures result'[j'] == KeyByte(c, ekey, iv, sn, i)
  {
    StreamPosition(i, j);
    result', j' := result, j;
    if j' == 0 {
      result' := c.encrypt(block[..], ekey);
      BumpCounter(block, iv, sn, i / BLOCK);
      j' := BLOCK;
    }
    j' := j' - 1;
  }

  /** The length prefix mixed into the initial MAC block. */
  method MacStart(c: Cipher, ekey: seq<Octet>, iv: Iv, sn: nat, size: nat, ghost p: seq<Octet>)
    returns (mac: Block)
    requires size == |p|
    ensures MacAt(c, ekey, iv, sn, p, 0, mac, 2)
  {
    var block := BlockInit(iv, sn);
    mac := block[..];
    var len := LeBytes(size % 0x10000, 2);
    mac := mac[0 := XorOctet(mac[0], len[0])][1 := XorOctet(mac[1], len[1])];
    assert (len + p)[0..2] == len;
  }

  method MacFinish(c: Cipher, ekey: seq<Octet>, mac: Block, at: nat, ghost iv: Iv, ghost sn: nat, ghost p: seq<Octet>)
    returns (tag: nat)
    requires MacAt(c, ekey, iv, sn, p, |p|, mac, at)
    ensures tag == Mac(c, ekey, iv, sn, p)
  {
    ghost var m := LeBytes(|p| % 0x10000, 2) + p;
    ghost var t := |m| / BLOCK;
    assert m[BLOCK * t..|m|] == m[BLOCK * t..];
    var last := mac;
    if at != 0 {
      last := c.encrypt(mac, ekey);
    } else {
      assert m[BLOCK * t..] == [];
      assert Absorb(Chain(c, ekey, CounterBlock(iv, sn, 0), m, t), []) == Chain(c, ekey, CounterBlock(iv, sn, 0), m, t);
    }
    tag := LeValue(last[..8]);
  }

  lemma {:induction false} StreamStart(c: Cipher, ekey: seq<Octet>, iv: Iv, sn: nat)
    ensures forall result: Block :: Stream(c, ekey, iv, sn, 0, CounterBlock(iv, sn, 0), result, 0)
  {
    hide CounterBlock;
  }

  /** The loop of encrypt: each byte is mixed into the MAC before it is masked. */
  method EncryptBytes(c: Cipher, iv: Iv, sn: nat, ekey: seq<Octet>, data: array<Octet>, off: nat, size: nat,
                     mac0: Block, ghost p: seq<Octet>, ghost was: seq<Octet>)
    returns (mac: Block, at: nat)
    requires off + size <= data.Length && was == data[off..off + size] && |p| == size
    requires p == was && MacAt(c, ekey, iv, sn, p, 0, mac0, 2)
    modifies data
    ensures MacAt(c, ekey, iv, sn, p, size, mac, at)
    ensures ChangedOnly(data, off, size)
    ensures forall k :: 0 <= k < size ==> data[off + k] == XorOctet(was[k], KeyByte(c, ekey, iv, sn, k))
  {
    hide CounterBlock, KeyByte, MacAt, Stream, XorOctet;
    StreamStart(c, ekey, iv, sn);
    var block := BlockInit(iv, sn);
    var result: Block := block[..];
    mac, at := mac0, 2;
    var i, j := 0, 0;
    while i < size
      invariant 0 <= i <= size
      invariant Stream(c, ekey, iv, sn, i, block[..], result, j)
      invariant MacAt(c, ekey, iv, sn, p, i, mac, at)
      invariant ChangedOnly(data, off, i)
      invariant forall k :: 0 <= k < i ==> data[off + k] == XorOctet(was[k], KeyByte(c, ekey, iv, sn, k))
    {
      result, j := NextKeyByte(c, ekey, block, result, j, iv, sn, i);
      mac, at := MacNext(c, ekey, mac, data[off + i], at, iv, sn, p, i);
      data[off + i] := XorOctet(data[off + i], result[j]);
      i := i + 1;
    }
  }

  /** Encrypts data[off..off+size] in place and returns the MAC of the plaintext. */
  method Encrypt(c: Cipher, iv: Iv, sn: nat, ekey: seq<Octet>, data: array<Octet>, off: nat, size: nat)
    returns (tag: nat)
    requires off + size <= data.Length
    modifies data
    ensures data[off..off + size] == Mask(c, ekey, iv, sn, old(data[off..off + size]))
    ensures ChangedOnly(data, off, size)
    ensures tag == Mac(c, ekey, iv, sn, old(data[off..off + size]))
  {
    ghost var was := data[off..off + size];
    ghost var p := was;
    var mac := MacStart(c, ekey, iv, sn, size, p);
    assert data[off..off + size] == was;
    var at;
    mac, at := EncryptBytes(c, iv, sn, ekey, data, off, size, mac, p, was);
    tag := MacFinish(c, ekey, mac, at, iv, sn, p);
  }

  /** The loop of decrypt: each byte is unmasked before it is mixed into the MAC. */
  method DecryptBytes(c: Cipher, iv: Iv, sn: nat, ekey: seq<Octet>, data: array<Octet>, off: nat, size: nat,
                     mac0: Block, ghost p: seq<Octet>, ghost was: seq<Octet>)
    returns (mac: Block, at: nat)
    requires off + size <= data.Length && was == data[off..off + size] && |p| == size
    requires p == Mask(c, ekey, iv, sn, was) && MacAt(c, ekey, iv, sn, p, 0, mac0, 2)
    modifies data
    ensures MacAt(c, ekey, iv, sn, p, size, mac, at)
    ensures ChangedOnly(data, off, size)
    ensures forall k :: 0 <= k < size ==> data[off + k] == XorOctet(was[k], KeyByte(c, ekey, iv, sn, k))
  {
    hide CounterBlock, KeyByte, MacAt, Stream, XorOctet;
    StreamStart(c, ekey, iv, sn);
    var block := BlockInit(iv, sn);
    var result: Block := block[..];
    mac, at := mac0, 2;
    var i, j := 0, 0;
    while i < size
      invariant 0 <= i <= size
      invariant Stream(c, ekey, iv, sn, i, block[..], result, j)
      invariant MacAt(c, ekey, iv, sn, p, i, mac, at)
      invariant ChangedOnly(data, off, i)
      invariant forall k :: 0 <= k < i ==> data[off + k] == XorOctet(was[k], KeyByte(c, ekey, iv, sn, k))
    {
      result, j := NextKeyByte(c, ekey, block, result, j, iv, sn, i);
      data[off + i] := XorOctet(data[off + i], result[j]);
      mac, at := MacNext(c, ekey, mac, data[off + i], at, iv, sn, p, i);
      i := i + 1;
    }
  }

  /** Decrypts data[off..off+size] in place and returns the MAC of the recovered plaintext. */
  method Decrypt(c: Cipher, iv: Iv, sn: nat, ekey: seq<Octet>, data: array<Octet>, off: nat, size: nat)
    returns (tag: nat)
    requires off + size <= data.Length
    modifies data
    ensures data[off..off + size] == Mask(c, ekey, iv, sn, old(data[off..off + size]))
    ensures ChangedOnly(data, off, size)
    ensures tag == Mac(c, ekey, iv, sn, Mask(c, ekey, iv, sn, old(data[off..off + size])))
  {
    ghost var was := data[off..off + size];
    ghost var p := Mask(c, ekey, iv, sn, was);
    var mac := MacStart(c, ekey, iv, sn, size, p);
    assert data[off..off + size] == was;
    var at;
    mac, at := DecryptBytes(c, iv, sn, ekey, data, off, size, mac, p, was);
    tag := MacFinish(c, ekey, mac, at, iv, sn, p);
  }

  /** The header scrambler: counter mode under the certificate hash, with a fixed sequence number. */
  method Crypt(c: Cipher, iv: Iv, key: seq<Octet>, data: array<Octet>, off: nat, size: nat)
    requires off + size <= data.Length
    modifies data
    ensures data[off..off + size] == Mask(c, c.expand(key), iv, HEADER_SEQ, old(data[off..off + size]))
    ensures ChangedOnly(data, off, size)
  {
    var ekey := c.expand(key);
    ghost var was := data[off..off + size];
    var block := BlockInit(iv, HEADER_SEQ);
    var result: Block := block[..];
    var i, j := 0, 0;
    while i < size
      invariant 0 <= i <= size
      invariant Stream(c, ekey, iv, HEADER_SEQ, i, block[..], result, j)
      invariant ChangedOnly(data, off, i)
      invariant forall k :: 0 <= k < i ==> data[off + k] == XorOctet(was[k], KeyByte(c, ekey, iv, HEADER_SEQ, k))
    {
      result, j := NextKeyByte(c, ekey, block, result, j, iv, HEADER_SEQ, i);
      data[off + i] := XorOctet(data[off + i], result[j]);
      i := i + 1;
    }
  }

  /** Decrypting what was encrypted gives the plaintext back together with the MAC the sender computed. */
  lemma {:induction false} DecryptUndoesEncrypt(c: Cipher, ekey: seq<Octet>, iv: Iv, sn: nat, data: seq<Octet>)
    ensures var sent := Mask(c, ekey, iv, sn, data);
            && Mask(c, ekey, iv, sn, sent) == data
            && Mac(c, ekey, iv, sn, Mask(c, ekey, iv, sn, sent)) == Mac(c, ekey, iv, sn, data)
  {
    MaskTwice(c, ekey, iv, sn, data);
  }
}
