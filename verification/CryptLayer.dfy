/** The crypt layer working in place on a packet buffer: headers grow downwards in front of the payload. */
module CryptLayer {
  import opened Common
  import opened Digits
  import opened Arith
  import opened Bytes
  import opened Buffers
  import opened Ctr
  import opened Sequence
  import opened CryptPacket
  import opened KeyStream

  // ----- encoding

  /** iv and scrambled header fields, written at `at`. */
  method SealHead(pr: Params, iv: Iv, head: seq<Octet>, buf: array<Octet>, at: nat)
    requires at + |iv| + |head| <= buf.Length
    modifies buf
    ensures buf[at..at + |iv| + |head|] == iv + pr.Scramble(iv, head)
    ensures ChangedOnly(buf, at, |iv| + |head|)
  {
    hide LeBytes, LeValue, Mask, Mac, DigitAt;
    var h, end := at + |iv|, at + |iv| + |head|;
    Put(buf, h, head);
    Put(buf, at, iv);
    assert buf[h..end] == head;
    Crypt(pr.cipher, iv, pr.certHash, buf, h, |head|);
    assert buf[at..h] == iv;
    assert buf[at..end] == buf[at..h] + buf[h..end];
  }

  /** The payload encrypted in place, with its MAC in front. */
  method SealBody(pr: Params, ekey: seq<Octet>, iv: Iv, sn: nat, buf: array<Octet>, pos: nat, size: nat)
    requires pr.macSize <= pos && pos + size <= buf.Length
    modifies buf
    ensures buf[pos - pr.macSize..pos + size] == Sealed(pr, ekey, sn, iv, old(buf[pos..pos + size]))
    ensures ChangedOnly(buf, pos - pr.macSize, size + pr.macSize)
  {
    hide LeBytes, LeValue, Mask, Mac, DigitAt;
    var mac := Encrypt(pr.cipher, iv, sn, ekey, buf, pos, size);
    ghost var body := buf[pos..pos + size];
    Put(buf, pos - pr.macSize, LeBytes(mac, pr.macSize));
    assert buf[pos..pos + size] == body;
    assert buf[pos - pr.macSize..pos + size] == buf[pos - pr.macSize..pos] + buf[pos..pos + size];
  }

  /** A whole packet in front of and over buf[pos..pos+size]. */
  method Seal(pr: Params, ekey: seq<Octet>, iv: Iv, sn: nat, head: seq<Octet>, buf: array<Octet>, pos: nat, size: nat)
    requires |iv| + |head| + pr.macSize <= pos && pos + size <= buf.Length
    modifies buf
    ensures var at := pos - (|iv| + |head| + pr.macSize);
            && buf[at..pos + size] == iv + pr.Scramble(iv, head) + Sealed(pr, ekey, sn, iv, old(buf[pos..pos + size]))
            && ChangedOnly(buf, at, pos + size - at)
  {
    hide LeBytes, LeValue, Mask, Mac, DigitAt;
    var at, m := pos - (|iv| + |head| + pr.macSize), pos - pr.macSize;
    ghost var payload := buf[pos..pos + size];
    SealHead(pr, iv, head, buf, at);
    ghost var front := buf[at..m];
    assert buf[pos..pos + size] == payload;
    SealBody(pr, ekey, iv, sn, buf, pos, size);
    assert buf[at..m] == front;
    assert buf[at..pos + size] == buf[at..m] + buf[m..pos + size];
  }

  class Client {
    const pr: Params
    var id: nat
    var seqNo: nat
    var seqKey: SeqKey
    var ekey: seq<Octet>

    constructor (pr: Params, id: nat, seqNo: nat, seqKey: SeqKey, ekey: seq<Octet>)
      ensures this.pr == pr && this.id == id && this.seqNo == seqNo && this.seqKey == seqKey && this.ekey == ekey
    {
      this.pr, this.id, this.seqNo, this.seqKey, this.ekey := pr, id, seqNo, seqKey, ekey;
    }

    /** crypt_encode of the client: puts a header in front of buf[pos..pos+size] and encrypts in place. */
    method Encode(buf: array<Octet>, pos: nat, size: nat, iv: Iv) returns (pos': nat, size': nat)
      requires pr.Valid() && |iv| == pr.ivSize && seqNo < M32
      requires pr.ClientHeader() <= pos && pos + size <= buf.Length
      modifies this`seqNo, buf
      ensures pos' == pos - pr.ClientHeader() && size' == size + pr.ClientHeader()
      ensures seqNo == (old(seqNo) + 1) % M32
      ensures buf[pos'..pos' + size']
           == ClientPacket(pr, ekey, id, Permute(old(seqNo), seqKey), iv, old(buf[pos..pos + size]))
      ensures ChangedOnly(buf, pos', size')
    {
      hide LeBytes, LeValue, Mask, Mac, DigitAt;
      pos', size' := pos - pr.ClientHeader(), size + pr.ClientHeader();
      var sn := CryptSeq(seqNo, seqKey);
      seqNo := (seqNo + 1) % M32;
      Seal(pr, ekey, iv, sn, LeBytes(id, pr.idSize) + LeBytes(sn, 4), buf, pos, size);
    }

    /** crypt_decode: strips the header of a server packet, or reports why not. */
    method Decode(buf: array<Octet>, pos: nat, size: nat) returns (r: Outcome)
      requires pr.Valid() && pos + size <= buf.Length
      modifies buf
      ensures Agrees(r, ClientOpen(pr, ekey, old(buf[pos..pos + size])), buf, pos, size, pr.ServerHeader())
      ensures ChangedOnly(buf, pos, size)
    {
      hide LeBytes, LeValue, Mask, Mac, DigitAt;
      if size <= pr.ServerHeader() { return Failed(BadLength); }
      ghost var packet := buf[pos..pos + size];
      var iv: Iv, head := OpenHead(pr, buf, pos, size, 4, packet);
      r := OpenInPlace(pr, ekey, 0, iv, LeValue(head), buf, pos, size, pr.ivSize + 4, packet);
    }
  }

  // ----- decoding

  datatype Outcome = Decoded(pos: nat, size: nat) | IsHandshake(id: nat) | Failed(error: Error)

  /** The in-place outcome r is what the specification o says about the packet. */
  ghost predicate Agrees(r: Outcome, o: Opened, buf: array<Octet>, pos: nat, size: nat, header: nat)
    reads buf
  {
    match o
    case Payload(_, data) =>
      && header < size && pos + size <= buf.Length
      && r == Decoded(pos + header, size - header) && buf[pos + header..pos + size] == data
    case Handshake(id) => r == IsHandshake(id)
    case Rejected(e) => r == Failed(e)
  }

  /** Unscrambles n header bytes behind the vector, in place. */
  method OpenHead(pr: Params, buf: array<Octet>, pos: nat, size: nat, n: nat, ghost packet: seq<Octet>)
    returns (iv: Iv, head: seq<Octet>)
    requires pr.Valid() && pos + size <= buf.Length && pr.ivSize + n <= size && packet == buf[pos..pos + size]
    modifies buf
    ensures iv == packet[..pr.ivSize] && head == pr.Scramble(iv, packet[pr.ivSize..pr.ivSize + n])
    ensures ChangedOnly(buf, pos + pr.ivSize, n)
  {
    hide LeBytes, LeValue, Mask, Mac, DigitAt;
    var h := pos + pr.ivSize;
    iv := buf[pos..h];
    SubSlice(buf[..], pos, pos + size, pr.ivSize, pr.ivSize + n);
    Crypt(pr.cipher, iv, pr.certHash, buf, h, n);
    head := buf[h..h + n];
  }

  /** Decrypts the body behind h header bytes and the MAC, and compares the MACs. */
  method OpenInPlace(pr: Params, ekey: seq<Octet>, id: nat, iv: Iv, sn: nat, buf: array<Octet>, pos: nat, size: nat,
                     h: nat, ghost packet: seq<Octet>)
    returns (r: Outcome)
    requires pos + size <= buf.Length && h + pr.macSize < size && |packet| == size
    requires buf[pos + h..pos + size] == packet[h..]
    modifies buf
    ensures Agrees(r, OpenBody(pr, ekey, id, iv, sn, packet[h..h + pr.macSize], packet[h + pr.macSize..]),
                   buf, pos, size, h + pr.macSize)
    ensures ChangedOnly(buf, pos, size)
  {
    hide LeBytes, LeValue, Mask, Mac, DigitAt;
    var at := pos + h + pr.macSize;
    assert buf[pos + h..at] == packet[h..][..pr.macSize] == packet[h..h + pr.macSize];
    assert buf[at..pos + size] == packet[h..][pr.macSize..] == packet[h + pr.macSize..];
    var tag := buf[pos + h..at];
    var mac := Decrypt(pr.cipher, iv, sn, ekey, buf, at, size - h - pr.macSize);
    if tag != LeBytes(mac, pr.macSize) { return Failed(BadMac); }
    return Decoded(at, size - h - pr.macSize);
  }

  class Server {
    const pr: Params
    var id: nat
    var seqNo: nat
    var seqKey: SeqKey
    var ekey: seq<Octet>

    constructor (pr: Params, seqNo: nat, seqKey: SeqKey)
      ensures this.pr == pr && this.seqNo == seqNo && this.seqKey == seqKey
    {
      this.pr, this.seqNo, this.seqKey := pr, seqNo, seqKey;
      id, ekey := 0, [];
    }

    /** crypt_server_decode for tunnelled packets; the session key is re-derived from the id on the wire. */
    method Decode(buf: array<Octet>, pos: nat, size: nat, keyOf: nat -> seq<Octet>) returns (r: Outcome)
      requires pr.Valid() && pos + size <= buf.Length
      modifies this`id, this`ekey, buf
      ensures Agrees(r, ServerOpen(pr, keyOf, old(buf[pos..pos + size])), buf, pos, size, pr.ClientHeader())
      ensures ChangedOnly(buf, pos, size)
      ensures var o := ServerOpen(pr, keyOf, old(buf[pos..pos + size]));
              o.Payload? ==> id == o.id && ekey == pr.cipher.expand(keyOf(o.id))
    {
      hide LeBytes, LeValue, Mask, Mac, DigitAt;
      var h := pr.ivSize + pr.idSize + 4;
      if size <= h { return Failed(BadLength); }
      ghost var packet := buf[pos..pos + size];
      var iv: Iv, head := OpenHead(pr, buf, pos, size, pr.idSize + 4, packet);
      var wire, sn := LeValue(head[..pr.idSize]), LeValue(head[pr.idSize..]);
      if wire <= MAX_RESERVED_ID { return IsHandshake(wire); }
      if size <= h + pr.macSize { return Failed(BadLength); }
      assert buf[pos + h..pos + size] == packet[h..];
      ekey := pr.cipher.expand(keyOf(wire));
      r := OpenInPlace(pr, ekey, wire, iv, sn, buf, pos, size, h, packet);
      if r.Decoded? { id := wire; }
      ServerOpenBody(pr, keyOf, packet, iv, head);
    }

    /** crypt_encode of the server, under the key of the packet decoded last. */
    method Encode(buf: array<Octet>, pos: nat, size: nat, iv: Iv) returns (pos': nat, size': nat)
      requires pr.Valid() && |iv| == pr.ivSize && seqNo < M32
      requires pr.ServerHeader() <= pos && pos + size <= buf.Length
      modifies this`seqNo, buf
      ensures pos' == pos - pr.ServerHeader() && size' == size + pr.ServerHeader()
      ensures seqNo == (old(seqNo) + 1) % M32
      ensures buf[pos'..pos' + size']
           == ServerPacket(pr, ekey, Permute(old(seqNo), seqKey), iv, old(buf[pos..pos + size]))
      ensures ChangedOnly(buf, pos', size')
    {
      hide LeBytes, LeValue, Mask, Mac, DigitAt;
      pos', size' := pos - pr.ServerHeader(), size + pr.ServerHeader();
      var sn := CryptSeq(seqNo, seqKey);
      seqNo := (seqNo + 1) % M32;
      Seal(pr, ekey, iv, sn, LeBytes(sn, 4), buf, pos, size);
    }
  }

  // ----- successive packets of one sender

  lemma {:induction false} SeqNext(seed: nat, i: nat)
    ensures ((seed + i) % M32 + 1) % M32 == (seed + i + 1) % M32
  {
    var q := (seed + i) / M32;
    assert seed + i + 1 == ((seed + i) % M32 + 1) + q * M32;
    AddMultiple((seed + i) % M32 + 1, q, M32);
  }

  /** The blocks that successive packets feed: distinct within a packet, and disjoint between packets. */
  lemma {:induction false} FedInTurn(seed: nat, key: SeqKey, ivs: seq<Iv>, payloads: seq<seq<Octet>>)
    returns (feds: seq<seq<Block>>)
    requires |ivs| == |payloads| && forall i, j :: 0 <= i < j < |ivs| ==> |ivs[i]| == |ivs[j]|
    ensures |feds| == |payloads|
    ensures forall i :: 0 <= i < |feds| ==> feds[i] == Fed(ivs[i], PacketSeq(seed, key, i), Blocks(|payloads[i]|))
    ensures forall i :: 0 <= i < |feds| && |payloads[i]| <= BLOCK * COUNTERS ==> Distinct(feds[i])
    ensures |payloads| <= M32 ==> forall i, j :: 0 <= i < j < |feds| ==> Disjoint(feds[i], feds[j])
  {
    hide Permute, Fed, Distinct, Disjoint;
    feds := seq(|payloads|, i requires 0 <= i < |payloads| =>
      Fed(ivs[i], PacketSeq(seed, key, i), Blocks(|payloads[i]|)));
    forall i | 0 <= i < |feds| && |payloads[i]| <= BLOCK * COUNTERS ensures Distinct(feds[i]) {
      FedDistinct(ivs[i], PacketSeq(seed, key, i), Blocks(|payloads[i]|));
    }
    if |payloads| <= M32 {
      forall i, j | 0 <= i < j < |feds| ensures Disjoint(feds[i], feds[j]) {
        FedDisjoint(seed, key, ivs[i], i, Blocks(|payloads[i]|), ivs[j], j, Blocks(|payloads[j]|));
      }
    }
  }

  /** The n-th of successive packets of a client carries the n-th sequence number from its seed. */
  method ClientSendsAll(c: Client, payloads: seq<seq<Octet>>, ivs: seq<Iv>)
    returns (packets: seq<seq<Octet>>, ghost feds: seq<seq<Block>>)
    requires c.pr.Valid() && c.seqNo < M32 && |ivs| == |payloads|
    requires forall i :: 0 <= i < |ivs| ==> |ivs[i]| == c.pr.ivSize
    modifies c`seqNo
    ensures |packets| == |payloads| && c.seqNo == (old(c.seqNo) + |payloads|) % M32
    ensures forall i :: 0 <= i < |packets| ==>
              packets[i] == ClientPacket(c.pr, c.ekey, c.id, PacketSeq(old(c.seqNo), c.seqKey, i), ivs[i], payloads[i])
    ensures |feds| == |payloads| && forall i :: 0 <= i < |packets| ==>
              && |packets[i]| == c.pr.ClientHeader() + |payloads[i]|
              && Covers(c.pr.cipher, c.ekey, feds[i], payloads[i], packets[i][c.pr.ClientHeader()..])
    ensures forall i :: 0 <= i < |feds| && |payloads[i]| <= BLOCK * COUNTERS ==> Distinct(feds[i])
    ensures |payloads| <= M32 ==> forall i, j :: 0 <= i < j < |feds| ==> Disjoint(feds[i], feds[j])
  {
    hide ClientPacket, Permute, Covers, Fed, Distinct, Disjoint;
    packets := [];
    ghost var seed := c.seqNo;
    var i := 0;
    while i < |payloads|
      invariant 0 <= i <= |payloads| && |packets| == i && c.seqNo == (seed + i) % M32
      invariant forall k :: 0 <= k < i ==>
                  packets[k] == ClientPacket(c.pr, c.ekey, c.id, PacketSeq(seed, c.seqKey, k), ivs[k], payloads[k])
    {
      var h, n := c.pr.ClientHeader(), |payloads[i]|;
      var buf := new Octet[h + n];
      Put(buf, h, payloads[i]);
      var at, size := c.Encode(buf, h, n, ivs[i]);
      packets := packets + [buf[at..at + size]];
      SeqNext(seed, i);
      i := i + 1;
    }
    feds := FedInTurn(seed, c.seqKey, ivs, payloads);
    forall k | 0 <= k < |packets|
      ensures |packets[k]| == c.pr.ClientHeader() + |payloads[k]|
      ensures Covers(c.pr.cipher, c.ekey, feds[k], payloads[k], packets[k][c.pr.ClientHeader()..])
    {
      ClientWire(c.pr, c.ekey, c.id, PacketSeq(seed, c.seqKey, k), ivs[k], payloads[k]);
    }
  }

  /** The same for a server, under the key decoded last. */
  method ServerSendsAll(s: Server, payloads: seq<seq<Octet>>, ivs: seq<Iv>)
    returns (packets: seq<seq<Octet>>, ghost feds: seq<seq<Block>>)
    requires s.pr.Valid() && s.seqNo < M32 && |ivs| == |payloads|
    requires forall i :: 0 <= i < |ivs| ==> |ivs[i]| == s.pr.ivSize
    modifies s`seqNo
    ensures |packets| == |payloads| && s.seqNo == (old(s.seqNo) + |payloads|) % M32
    ensures forall i :: 0 <= i < |packets| ==>
              packets[i] == ServerPacket(s.pr, s.ekey, PacketSeq(old(s.seqNo), s.seqKey, i), ivs[i], payloads[i])
    ensures |feds| == |payloads| && forall i :: 0 <= i < |packets| ==>
              && |packets[i]| == s.pr.ServerHeader() + |payloads[i]|
              && Covers(s.pr.cipher, s.ekey, feds[i], payloads[i], packets[i][s.pr.ServerHeader()..])
    ensures forall i :: 0 <= i < |feds| && |payloads[i]| <= BLOCK * COUNTERS ==> Distinct(feds[i])
    ensures |payloads| <= M32 ==> forall i, j :: 0 <= i < j < |feds| ==> Disjoint(feds[i], feds[j])
  {
    hide ServerPacket, Permute, Covers, Fed, Distinct, Disjoint;
    packets := [];
    ghost var seed := s.seqNo;
    var i := 0;
    while i < |payloads|
      invariant 0 <= i <= |payloads| && |packets| == i && s.seqNo == (seed + i) % M32
      invariant forall k :: 0 <= k < i ==>
                  packets[k] == ServerPacket(s.pr, s.ekey, PacketSeq(seed, s.seqKey, k), ivs[k], payloads[k])
    {
      var h, n := s.pr.ServerHeader(), |payloads[i]|;
      var buf := new Octet[h + n];
      Put(buf, h, payloads[i]);
      var at, size := s.Encode(buf, h, n, ivs[i]);
      packets := packets + [buf[at..at + size]];
      SeqNext(seed, i);
      i := i + 1;
    }
    feds := FedInTurn(seed, s.seqKey, ivs, payloads);
    forall k | 0 <= k < |packets|
      ensures |packets[k]| == s.pr.ServerHeader() + |payloads[k]|
      ensures Covers(s.pr.cipher, s.ekey, feds[k], payloads[k], packets[k][s.pr.ServerHeader()..])
    {
      ServerWire(s.pr, s.ekey, PacketSeq(seed, s.seqKey, k), ivs[k], payloads[k]);
    }
  }
}
