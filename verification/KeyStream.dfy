/** What the cipher is fed with, and what that does to the bytes on the wire. */
module KeyStream {
  import opened Common
  import opened Bytes
  import opened Ctr
  import opened Sequence
  import opened CryptPacket

  /** The blocks that n blocks of key stream take from the cipher. */
  ghost function Fed(iv: Iv, sn: nat, n: nat): (fed: seq<Block>)
    ensures |fed| == n && forall b :: 0 <= b < n ==> fed[b] == CounterBlock(iv, sn, b)
  {
    seq(n, b requires 0 <= b < n => CounterBlock(iv, sn, b))
  }

  /** out is data under the encryptions of the blocks fed, each used from its last byte down. */
  ghost predicate Covers(c: Cipher, ekey: seq<Octet>, fed: seq<Block>, data: seq<Octet>, out: seq<Octet>)
  {
    && |out| == |data| <= BLOCK * |fed|
    && forall i :: 0 <= i < |data| ==>
         out[i] == XorOctet(data[i], c.encrypt(fed[i / BLOCK], ekey)[BLOCK - 1 - i % BLOCK])
  }

  ghost predicate Distinct(fed: seq<Block>)
  {
    forall a, b :: 0 <= a < b < |fed| ==> fed[a] != fed[b]
  }

  ghost predicate Disjoint(fed: seq<Block>, fed': seq<Block>)
  {
    forall a, b :: 0 <= a < |fed| && 0 <= b < |fed'| ==> fed[a] != fed'[b]
  }

  function Blocks(size: nat): nat
  {
    (size + BLOCK - 1) / BLOCK
  }

  lemma {:induction false} MaskCovers(c: Cipher, ekey: seq<Octet>, iv: Iv, sn: nat, data: seq<Octet>)
    ensures Covers(c, ekey, Fed(iv, sn, Blocks(|data|)), data, Mask(c, ekey, iv, sn, data))
  {
    hide CounterBlock, XorOctet;
  }

  lemma {:induction false} FedDistinct(iv: Iv, sn: nat, n: nat)
    requires sn < M32 && n <= COUNTERS
    ensures Distinct(Fed(iv, sn, n))
  {
    hide CounterBlock;
    var fed := Fed(iv, sn, n);
    forall a, b | 0 <= a < b < n ensures fed[a] != fed[b] {
      if fed[a] == fed[b] { BlockFields(iv, sn, a, iv, sn, b); }
    }
  }

  /**
   Encryption of up to 2^16 blocks: there are pairwise distinct cipher inputs, one for every block and the same for all
   ciphers and keys, whose encryptions cover every byte.
   */
  lemma {:induction false} StreamOfDistinctBlocks(iv: Iv, sn: nat, n: nat)
    requires sn < M32 && n <= COUNTERS
    ensures exists fed: seq<Block> ::
      && |fed| == n && Distinct(fed)
      && forall c: Cipher, ekey: seq<Octet>, data: seq<Octet> :: Blocks(|data|) == n ==>
           Covers(c, ekey, fed, data, Mask(c, ekey, iv, sn, data))
  {
    hide Covers, Mask, CounterBlock;
    var fed := Fed(iv, sn, n);
    FedDistinct(iv, sn, n);
    forall c: Cipher, ekey: seq<Octet>, data: seq<Octet> | Blocks(|data|) == n
      ensures Covers(c, ekey, fed, data, Mask(c, ekey, iv, sn, data))
    {
      MaskCovers(c, ekey, iv, sn, data);
    }
  }

  /** Masking zeros gives the key stream itself. */
  lemma {:induction false} StreamItself(c: Cipher, ekey: seq<Octet>, iv: Iv, sn: nat, n: nat, b: nat, j: nat)
    requires b < n && j < BLOCK
    ensures var zeros: seq<Octet> := seq(BLOCK * n, _ => 0);
            BLOCK * b + j < BLOCK * n &&
            Mask(c, ekey, iv, sn, zeros)[BLOCK * b + j] == c.encrypt(CounterBlock(iv, sn, b), ekey)[BLOCK - 1 - j]
  {
    hide CounterBlock;
    var zeros: seq<Octet> := seq(BLOCK * n, _ => 0);
    var i := BLOCK * b + j;
    assert i / BLOCK == b && i % BLOCK == j;
    var k: Octet := c.encrypt(CounterBlock(iv, sn, b), ekey)[BLOCK - 1 - j];
    assert XorOctet(0, k) == k;
  }

  /** Two packets of one sender, less than 2^32 packets apart, feed no block in common. */
  lemma {:induction false} FedDisjoint(seed: nat, key: SeqKey, iv: Iv, i: nat, n: nat, iv': Iv, i': nat, n': nat)
    requires |iv| == |iv'| && i < i' < i + M32
    ensures Disjoint(Fed(iv, PacketSeq(seed, key, i), n), Fed(iv', PacketSeq(seed, key, i'), n'))
  {
    hide CounterBlock, PacketSeq;
    var fed, fed' := Fed(iv, PacketSeq(seed, key, i), n), Fed(iv', PacketSeq(seed, key, i'), n');
    forall a, b | 0 <= a < n && 0 <= b < n' ensures fed[a] != fed'[b] {
      CounterBlocksDistinct(seed, key, iv, i, a, iv', i', b);
    }
  }

  // ----- the wire

  /**
   A client packet, byte for byte: the vector in clear; id and number under the certificate hash; the MAC; and the
   payload under the session key.
   */
  lemma {:induction false} ClientWire(pr: Params, ekey: seq<Octet>, id: nat, sn: nat, iv: Iv, payload: seq<Octet>)
    requires |iv| == pr.ivSize
    ensures var p, h := ClientPacket(pr, ekey, id, sn, iv, payload), pr.ivSize + pr.idSize + 4;
            && |p| == h + pr.macSize + |payload| && p[..pr.ivSize] == iv
            && Covers(pr.cipher, pr.cipher.expand(pr.certHash), Fed(iv, HEADER_SEQ, Blocks(pr.idSize + 4)),
                      LeBytes(id, pr.idSize) + LeBytes(sn, 4), p[pr.ivSize..h])
            && p[h..h + pr.macSize] == LeBytes(Mac(pr.cipher, ekey, iv, sn, payload), pr.macSize)
            && Covers(pr.cipher, ekey, Fed(iv, sn, Blocks(|payload|)), payload, p[h + pr.macSize..])
  {
    hide LeBytes, Mask, Mac, Covers, CounterBlock;
    var head := LeBytes(id, pr.idSize) + LeBytes(sn, 4);
    var p, h := ClientPacket(pr, ekey, id, sn, iv, payload), pr.ivSize + pr.idSize + 4;
    var tag, body := LeBytes(Mac(pr.cipher, ekey, iv, sn, payload), pr.macSize), Mask(pr.cipher, ekey, iv, sn, payload);
    FourParts(iv, pr.Scramble(iv, head), tag, body, p, pr.ivSize, h, h + pr.macSize);
    MaskCovers(pr.cipher, pr.cipher.expand(pr.certHash), iv, HEADER_SEQ, head);
    MaskCovers(pr.cipher, ekey, iv, sn, payload);
  }

  lemma {:induction false} ServerWire(pr: Params, ekey: seq<Octet>, sn: nat, iv: Iv, payload: seq<Octet>)
    requires |iv| == pr.ivSize
    ensures var p, h := ServerPacket(pr, ekey, sn, iv, payload), pr.ivSize + 4;
            && |p| == h + pr.macSize + |payload| && p[..pr.ivSize] == iv
            && Covers(pr.cipher, pr.cipher.expand(pr.certHash), Fed(iv, HEADER_SEQ, Blocks(4)), LeBytes(sn, 4),
                      p[pr.ivSize..h])
            && p[h..h + pr.macSize] == LeBytes(Mac(pr.cipher, ekey, iv, sn, payload), pr.macSize)
            && Covers(pr.cipher, ekey, Fed(iv, sn, Blocks(|payload|)), payload, p[h + pr.macSize..])
  {
    hide LeBytes, Mask, Mac, Covers, CounterBlock;
    var p, h := ServerPacket(pr, ekey, sn, iv, payload), pr.ivSize + 4;
    var tag, body := LeBytes(Mac(pr.cipher, ekey, iv, sn, payload), pr.macSize), Mask(pr.cipher, ekey, iv, sn, payload);
    FourParts(iv, pr.Scramble(iv, LeBytes(sn, 4)), tag, body, p, pr.ivSize, h, h + pr.macSize);
    MaskCovers(pr.cipher, pr.cipher.expand(pr.certHash), iv, HEADER_SEQ, LeBytes(sn, 4));
    MaskCovers(pr.cipher, ekey, iv, sn, payload);
  }
}
