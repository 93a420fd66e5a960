/** Tunnelled packets: what crypt_encode sends, and what crypt_server_decode and crypt_decode accept. */
module CryptPacket {
  import opened Common
  import opened Arith
  import opened Digits
  import opened Bytes
  import opened Ctr

  const MAX_RESERVED_ID: nat := 2   // ids 0, 1, 2 announce handshake requests

  /** Sizes accepted by crypt_init: id 5..8, iv 4..8, mac 2..8. */
  datatype Params = Params(cipher: Cipher, certHash: seq<Octet>, ivSize: nat, idSize: nat, macSize: nat)
  {
    ghost predicate Valid()
    {
      4 <= ivSize <= 8 && 5 <= idSize <= 8 && 2 <= macSize <= 8
    }

    function ClientHeader(): nat { ivSize + idSize + 4 + macSize }
    function ServerHeader(): nat { ivSize + 4 + macSize }

    /** The declared overhead of the layer. */
    function Overhead(): nat { ivSize + idSize + 4 + macSize }

    /** The header scrambler under the certificate hash. */
    function Scramble(iv: Iv, s: seq<Octet>): (r: seq<Octet>)
      ensures |r| == |s|
    {
      Mask(cipher, cipher.expand(certHash), iv, HEADER_SEQ, s)
    }
  }

  datatype Error = BadLength | BadMac

  datatype Opened = Payload(id: nat, data: seq<Octet>) | Handshake(id: nat) | Rejected(error: Error)

  // ----- the wire formats

  /** The part of the id that travels. */
  function WireId(pr: Params, id: nat): nat
  {
    PowPositive(256, pr.idSize);
    id % Pow(256, pr.idSize)
  }

  /** The MAC and the masked payload. */
  function Sealed(pr: Params, ekey: seq<Octet>, sn: nat, iv: Iv, payload: seq<Octet>): (s: seq<Octet>)
    ensures |s| == pr.macSize + |payload|
  {
    LeBytes(Mac(pr.cipher, ekey, iv, sn, payload), pr.macSize) + Mask(pr.cipher, ekey, iv, sn, payload)
  }

  function ClientPacket(pr: Params, ekey: seq<Octet>, id: nat, sn: nat, iv: Iv, payload: seq<Octet>): seq<Octet>
  {
    iv + pr.Scramble(iv, LeBytes(id, pr.idSize) + LeBytes(sn, 4)) + Sealed(pr, ekey, sn, iv, payload)
  }

  function ServerPacket(pr: Params, ekey: seq<Octet>, sn: nat, iv: Iv, payload: seq<Octet>): seq<Octet>
  {
    iv + pr.Scramble(iv, LeBytes(sn, 4)) + Sealed(pr, ekey, sn, iv, payload)
  }

  /** Unmasks a payload and checks its MAC. */
  function OpenBody(pr: Params, ekey: seq<Octet>, id: nat, iv: Iv, sn: nat, tag: seq<Octet>, body: seq<Octet>): Opened
  {
    var payload := Mask(pr.cipher, ekey, iv, sn, body);
    if tag != LeBytes(Mac(pr.cipher, ekey, iv, sn, payload), pr.macSize) then Rejected(BadMac)
    else Payload(id, payload)
  }

  /** What the server makes of a packet, the session key being re-derived from the id on the wire. */
  function ServerOpen(pr: Params, keyOf: nat -> seq<Octet>, packet: seq<Octet>): Opened
    requires pr.ivSize <= 8
  {
    var h := pr.ivSize + pr.idSize + 4;
    if |packet| <= h then Rejected(BadLength) else
    var iv: Iv := packet[..pr.ivSize];
    var head := pr.Scramble(iv, packet[pr.ivSize..h]);
    var id, sn := LeValue(head[..pr.idSize]), LeValue(head[pr.idSize..]);
    if id <= MAX_RESERVED_ID then Handshake(id) else
    if |packet| <= h + pr.macSize then Rejected(BadLength) else
    OpenBody(pr, pr.cipher.expand(keyOf(id)), id, iv, sn, packet[h..h + pr.macSize], packet[h + pr.macSize..])
  }

  /** What the client makes of a server packet. */
  function ClientOpen(pr: Params, ekey: seq<Octet>, packet: seq<Octet>): Opened
    requires pr.ivSize <= 8
  {
    var h := pr.ivSize + 4;
    if |packet| <= h + pr.macSize then Rejected(BadLength) else
    var iv: Iv := packet[..pr.ivSize];
    var sn := LeValue(pr.Scramble(iv, packet[pr.ivSize..h]));
    OpenBody(pr, ekey, 0, iv, sn, packet[h..h + pr.macSize], packet[h + pr.macSize..])
  }

  // ----- round trips

  lemma {:induction false} SeqNumberRoundTrip(sn: nat)
    requires sn < M32
    ensures LeValue(LeBytes(sn, 4)) == sn
  {
    LeRoundTrip(sn, 4);
    assert Pow(256, 4) == M32;
    DivModUnique(sn, M32, 0, sn);
  }

  lemma {:induction false} FourParts(a: seq<Octet>, b: seq<Octet>, c: seq<Octet>, d: seq<Octet>, p: seq<Octet>,
                                     i: nat, j: nat, k: nat)
    requires p == (a + b) + (c + d) && i == |a| && j == i + |b| && k == j + |c|
    ensures |p| == k + |d| && p[..i] == a && p[i..j] == b && p[j..k] == c && p[k..] == d
  {
  }

  lemma {:induction false} BodyRoundTrip(pr: Params, ekey: seq<Octet>, id: nat, iv: Iv, sn: nat, payload: seq<Octet>)
    ensures OpenBody(pr, ekey, id, iv, sn, LeBytes(Mac(pr.cipher, ekey, iv, sn, payload), pr.macSize),
                     Mask(pr.cipher, ekey, iv, sn, payload)) == Payload(id, payload)
  {
    MaskTwice(pr.cipher, ekey, iv, sn, payload);
  }

  lemma {:induction false} ScrambleTwice(pr: Params, iv: Iv, s: seq<Octet>)
    ensures pr.Scramble(iv, pr.Scramble(iv, s)) == s
  {
    hide LeBytes, LeValue, Mask, Mac, DigitAt;
    MaskTwice(pr.cipher, pr.cipher.expand(pr.certHash), iv, HEADER_SEQ, s);
  }

  lemma {:induction false} HeaderFields(pr: Params, id: nat, sn: nat, clear: seq<Octet>)
    requires sn < M32 && clear == LeBytes(id, pr.idSize) + LeBytes(sn, 4)
    ensures LeValue(clear[..pr.idSize]) == WireId(pr, id) && LeValue(clear[pr.idSize..]) == sn
  {
    assert clear[..pr.idSize] == LeBytes(id, pr.idSize) && clear[pr.idSize..] == LeBytes(sn, 4);
    LeRoundTrip(id, pr.idSize);
    SeqNumberRoundTrip(sn);
  }

  /**
   For every non-empty payload and every id whose wire form is not reserved, the server recovers the
   payload and the wire id; nothing else about the key matters than that both sides derive the same one.
   */
  lemma {:induction false} ServerOpensClientPacket(pr: Params, keyOf: nat -> seq<Octet>, id: nat, sn: nat, iv: Iv,
                                                   payload: seq<Octet>)
    requires pr.Valid() && |iv| == pr.ivSize && sn < M32 && payload != [] && WireId(pr, id) > MAX_RESERVED_ID
    ensures ServerOpen(pr, keyOf, ClientPacket(pr, pr.cipher.expand(keyOf(WireId(pr, id))), id, sn, iv, payload))
         == Payload(WireId(pr, id), payload)
  {
    hide LeBytes, LeValue, Mask, Mac, DigitAt;
    var ekey := pr.cipher.expand(keyOf(WireId(pr, id)));
    var clear := LeBytes(id, pr.idSize) + LeBytes(sn, 4);
    var tag := LeBytes(Mac(pr.cipher, ekey, iv, sn, payload), pr.macSize);
    var body := Mask(pr.cipher, ekey, iv, sn, payload);
    ScrambleTwice(pr, iv, clear);
    HeaderFields(pr, id, sn, clear);
    ServerOpenParts(pr, keyOf, iv, pr.Scramble(iv, clear), tag, body, WireId(pr, id), sn);
    BodyRoundTrip(pr, ekey, WireId(pr, id), iv, sn, payload);
  }

  lemma {:induction false} ServerOpenBody(pr: Params, keyOf: nat -> seq<Octet>, packet: seq<Octet>, iv: Iv,
      head: seq<Octet>)
    requires pr.Valid() && |packet| > pr.ClientHeader() && iv == packet[..pr.ivSize]
    requires head == pr.Scramble(iv, packet[pr.ivSize..pr.ivSize + pr.idSize + 4])
    ensures var h, id := pr.ivSize + pr.idSize + 4, LeValue(head[..pr.idSize]);
            id > MAX_RESERVED_ID ==>
              ServerOpen(pr, keyOf, packet)
                == OpenBody(pr, pr.cipher.expand(keyOf(id)), id, iv, LeValue(head[pr.idSize..]),
                            packet[h..h + pr.macSize], packet[h + pr.macSize..])
  {
    hide LeBytes, LeValue, Mask, Mac, DigitAt;
  }

  lemma {:induction false} ServerOpenParts(pr: Params, keyOf: nat -> seq<Octet>, iv: Iv, head: seq<Octet>,
                                           tag: seq<Octet>, body: seq<Octet>, id: nat, sn: nat)
    requires pr.Valid() && |iv| == pr.ivSize && |head| == pr.idSize + 4 && |tag| == pr.macSize && body != []
    requires LeValue(pr.Scramble(iv, head)[..pr.idSize]) == id > MAX_RESERVED_ID
    requires LeValue(pr.Scramble(iv, head)[pr.idSize..]) == sn
    ensures ServerOpen(pr, keyOf, (iv + head) + (tag + body))
         == OpenBody(pr, pr.cipher.expand(keyOf(id)), id, iv, sn, tag, body)
  {
    hide LeBytes, LeValue, Mask, Mac, DigitAt;
    var h := pr.ivSize + pr.idSize + 4;
    FourParts(iv, head, tag, body, (iv + head) + (tag + body), pr.ivSize, h, h + pr.macSize);
    ServerOpenBody(pr, keyOf, (iv + head) + (tag + body), iv, pr.Scramble(iv, head));
  }

  lemma {:induction false} ServerOpenHead(pr: Params, keyOf: nat -> seq<Octet>, packet: seq<Octet>, iv: Iv,
      head: seq<Octet>)
    requires pr.Valid() && |packet| > pr.ivSize + pr.idSize + 4 && iv == packet[..pr.ivSize]
    requires head == pr.Scramble(iv, packet[pr.ivSize..pr.ivSize + pr.idSize + 4])
    ensures var id := LeValue(head[..pr.idSize]);
            && (id <= MAX_RESERVED_ID ==> ServerOpen(pr, keyOf, packet) == Handshake(id))
            && (id > MAX_RESERVED_ID && |packet| <= pr.ClientHeader() ==>
                  ServerOpen(pr, keyOf, packet) == Rejected(BadLength))
  {
    hide LeBytes, LeValue, Mask, Mac, DigitAt;
  }

  /**
   Every outcome of a client packet at the server: an id whose wire form is reserved turns it into a handshake
   request, an empty payload into an error; otherwise it opens.
   */
  lemma {:induction false} ClientPacketOutcome(pr: Params, keyOf: nat -> seq<Octet>, id: nat, sn: nat, iv: Iv,
      payload: seq<Octet>)
    requires pr.Valid() && |iv| == pr.ivSize && sn < M32
    ensures ServerOpen(pr, keyOf, ClientPacket(pr, pr.cipher.expand(keyOf(WireId(pr, id))), id, sn, iv, payload))
         == if WireId(pr, id) <= MAX_RESERVED_ID then Handshake(WireId(pr, id))
            else if payload == [] then Rejected(BadLength)
            else Payload(WireId(pr, id), payload)
  {
    hide LeBytes, LeValue, Mask, Mac, DigitAt, ServerOpen, WireId, Sealed;
    if WireId(pr, id) > MAX_RESERVED_ID && payload != [] {
      ServerOpensClientPacket(pr, keyOf, id, sn, iv, payload);
    } else {
      var clear := LeBytes(id, pr.idSize) + LeBytes(sn, 4);
      var body := Sealed(pr, pr.cipher.expand(keyOf(WireId(pr, id))), sn, iv, payload);
      var packet := iv + pr.Scramble(iv, clear) + body;
      ScrambleTwice(pr, iv, clear);
      HeaderFields(pr, id, sn, clear);
      assert packet[..pr.ivSize] == iv && packet[pr.ivSize..pr.ivSize + pr.idSize + 4] == pr.Scramble(iv, clear);
      ServerOpenHead(pr, keyOf, packet, iv, clear);
    }
  }

  lemma {:induction false} ClientOpensServerPacket(pr: Params, ekey: seq<Octet>, sn: nat, iv: Iv, payload: seq<Octet>)
    requires pr.Valid() && |iv| == pr.ivSize && sn < M32 && payload != []
    ensures ClientOpen(pr, ekey, ServerPacket(pr, ekey, sn, iv, payload)) == Payload(0, payload)
  {
    hide LeBytes, LeValue, Mask, Mac, DigitAt;
    var tag := LeBytes(Mac(pr.cipher, ekey, iv, sn, payload), pr.macSize);
    ScrambleTwice(pr, iv, LeBytes(sn, 4));
    SeqNumberRoundTrip(sn);
    ClientOpenParts(pr, ekey, iv, pr.Scramble(iv, LeBytes(sn, 4)), tag, Mask(pr.cipher, ekey, iv, sn, payload), sn);
    BodyRoundTrip(pr, ekey, 0, iv, sn, payload);
  }

  lemma {:induction false} ClientOpenParts(pr: Params, ekey: seq<Octet>, iv: Iv, head: seq<Octet>, tag: seq<Octet>,
                                           body: seq<Octet>, sn: nat)
    requires pr.Valid() && |iv| == pr.ivSize && |head| == 4 && |tag| == pr.macSize && body != []
    requires LeValue(pr.Scramble(iv, head)) == sn
    ensures ClientOpen(pr, ekey, (iv + head) + (tag + body)) == OpenBody(pr, ekey, 0, iv, sn, tag, body)
  {
    hide LeBytes, LeValue, Mask, Mac, DigitAt;
    var h := pr.ivSize + 4;
    FourParts(iv, head, tag, body, (iv + head) + (tag + body), pr.ivSize, h, h + pr.macSize);
  }

  // ----- nothing else opens

  lemma {:induction false} OpenedBody(pr: Params, ekey: seq<Octet>, id: nat, iv: Iv, sn: nat, tag: seq<Octet>,
      body: seq<Octet>, d: seq<Octet>)
    requires OpenBody(pr, ekey, id, iv, sn, tag, body) == Payload(id, d)
    ensures tag + body == Sealed(pr, ekey, sn, iv, d)
  {
    hide Mac, LeBytes;
    MaskTwice(pr.cipher, ekey, iv, sn, body);
  }

  lemma {:induction false} HeaderBytes(pr: Params, clear: seq<Octet>)
    requires |clear| == pr.idSize + 4
    ensures var id, sn := LeValue(clear[..pr.idSize]), LeValue(clear[pr.idSize..]);
            sn < M32 && clear == LeBytes(id, pr.idSize) + LeBytes(sn, 4)
  {
    hide LeBytes, LeValue;
    LeRoundTripBytes(clear[..pr.idSize]);
    NumberBytes(clear[pr.idSize..]);
    assert clear == clear[..pr.idSize] + clear[pr.idSize..];
  }

  lemma {:induction false} NumberBytes(s: seq<Octet>)
    requires |s| == 4
    ensures LeValue(s) < M32 && s == LeBytes(LeValue(s), 4)
  {
    ValBound(s, 256, 4);
    LeRoundTripBytes(s);
    assert Pow(256, 4) == M32;
  }

  /** The packet that a client seals with this vector and number is p. */
  ghost predicate IsClientPacket(pr: Params, ekey: seq<Octet>, id: nat, d: seq<Octet>, p: seq<Octet>, iv: Iv, sn: nat)
  {
    |iv| == pr.ivSize && sn < M32 && p == ClientPacket(pr, ekey, id, sn, iv, d)
  }

  ghost predicate IsServerPacket(pr: Params, ekey: seq<Octet>, d: seq<Octet>, p: seq<Octet>, iv: Iv, sn: nat)
  {
    |iv| == pr.ivSize && sn < M32 && p == ServerPacket(pr, ekey, sn, iv, d)
  }

  lemma {:induction false} OpenedByServer(pr: Params, keyOf: nat -> seq<Octet>, p: seq<Octet>, id: nat, d: seq<Octet>)
    returns (iv: Iv, sn: nat)
    requires pr.Valid() && ServerOpen(pr, keyOf, p) == Payload(id, d)
    ensures id > MAX_RESERVED_ID && d != [] && WireId(pr, id) == id
    ensures IsClientPacket(pr, pr.cipher.expand(keyOf(id)), id, d, p, iv, sn)
  {
    hide LeBytes, LeValue, Mask, Mac, DigitAt;
    var i, h := pr.ivSize, pr.ivSize + pr.idSize + 4;
    iv := p[..i];
    var head := p[i..h];
    var clear := pr.Scramble(iv, head);
    sn := LeValue(clear[pr.idSize..]);
    ScrambleTwice(pr, iv, head);
    HeaderBytes(pr, clear);
    var tag, body := p[h..h + pr.macSize], p[h + pr.macSize..];
    OpenedBody(pr, pr.cipher.expand(keyOf(id)), id, iv, sn, tag, body, d);
    assert p == (iv + head) + (tag + body);
    HeaderFields(pr, id, sn, clear);
  }

  lemma {:induction false} OpenedByClient(pr: Params, ekey: seq<Octet>, p: seq<Octet>, d: seq<Octet>)
    returns (iv: Iv, sn: nat)
    requires pr.Valid() && ClientOpen(pr, ekey, p) == Payload(0, d)
    ensures d != [] && IsServerPacket(pr, ekey, d, p, iv, sn)
  {
    hide LeBytes, LeValue, Mask, Mac, DigitAt;
    var i, h := pr.ivSize, pr.ivSize + 4;
    iv := p[..i];
    var head := p[i..h];
    var clear := pr.Scramble(iv, head);
    sn := LeValue(clear);
    ScrambleTwice(pr, iv, head);
    NumberBytes(clear);
    var tag, body := p[h..h + pr.macSize], p[h + pr.macSize..];
    OpenedBody(pr, ekey, 0, iv, sn, tag, body, d);
    assert p == (iv + head) + (tag + body);
  }

  /** The server opens a packet to (id, d) iff it is a client's packet for them, under the key derived from that id. */
  lemma {:induction false} ServerOpensIff(pr: Params, keyOf: nat -> seq<Octet>, p: seq<Octet>, id: nat, d: seq<Octet>)
    requires pr.Valid()
    ensures ServerOpen(pr, keyOf, p) == Payload(id, d)
       <==> && id > MAX_RESERVED_ID && d != [] && WireId(pr, id) == id
            && exists iv: Iv, sn: nat :: IsClientPacket(pr, pr.cipher.expand(keyOf(id)), id, d, p, iv, sn)
  {
    hide ServerOpen, WireId;
    if ServerOpen(pr, keyOf, p) == Payload(id, d) {
      var iv, sn := OpenedByServer(pr, keyOf, p, id, d);
    } else if id > MAX_RESERVED_ID && d != [] && WireId(pr, id) == id {
      forall iv: Iv, sn: nat ensures !IsClientPacket(pr, pr.cipher.expand(keyOf(id)), id, d, p, iv, sn) {
        if |iv| == pr.ivSize && sn < M32 { ServerOpensClientPacket(pr, keyOf, id, sn, iv, d); }
      }
    }
  }

  /** The client opens a packet to d iff it is a server's packet for d under the session key. */
  lemma {:induction false} ClientOpensIff(pr: Params, ekey: seq<Octet>, p: seq<Octet>, d: seq<Octet>)
    requires pr.Valid()
    ensures ClientOpen(pr, ekey, p) == Payload(0, d)
       <==> d != [] && exists iv: Iv, sn: nat :: IsServerPacket(pr, ekey, d, p, iv, sn)
  {
    hide ClientOpen;
    if ClientOpen(pr, ekey, p) == Payload(0, d) {
      var iv, sn := OpenedByClient(pr, ekey, p, d);
    } else if d != [] {
      forall iv: Iv, sn: nat ensures !IsServerPacket(pr, ekey, d, p, iv, sn) {
        if |iv| == pr.ivSize && sn < M32 { ClientOpensServerPacket(pr, ekey, sn, iv, d); }
      }
    }
  }

  /** A client packet whose tag alone is changed is refused for its MAC. */
  lemma {:induction false} ForgedTagRefused(pr: Params, keyOf: nat -> seq<Octet>, id: nat, sn: nat, iv: Iv,
      payload: seq<Octet>, tag: seq<Octet>)
    requires pr.Valid() && |iv| == pr.ivSize && sn < M32 && payload != [] && WireId(pr, id) > MAX_RESERVED_ID
    requires var ekey := pr.cipher.expand(keyOf(WireId(pr, id)));
             |tag| == pr.macSize && tag != LeBytes(Mac(pr.cipher, ekey, iv, sn, payload), pr.macSize)
    ensures var ekey, h := pr.cipher.expand(keyOf(WireId(pr, id))), pr.ivSize + pr.idSize + 4;
            var p := ClientPacket(pr, ekey, id, sn, iv, payload);
            && |p| >= h + pr.macSize
            && ServerOpen(pr, keyOf, p[..h] + tag + p[h + pr.macSize..]) == Rejected(BadMac)
  {
    hide LeBytes, LeValue, Mask, Mac, DigitAt;
    var ekey, h := pr.cipher.expand(keyOf(WireId(pr, id))), pr.ivSize + pr.idSize + 4;
    var clear := LeBytes(id, pr.idSize) + LeBytes(sn, 4);
    var head, body := pr.Scramble(iv, clear), Mask(pr.cipher, ekey, iv, sn, payload);
    var p := ClientPacket(pr, ekey, id, sn, iv, payload);
    var mac := LeBytes(Mac(pr.cipher, ekey, iv, sn, payload), pr.macSize);
    FourParts(iv, head, mac, body, p, pr.ivSize, h, h + pr.macSize);
    assert p[..h] == iv + head;
    assert p[..h] + tag + body == (iv + head) + (tag + body);
    ScrambleTwice(pr, iv, clear);
    HeaderFields(pr, id, sn, clear);
    ServerOpenParts(pr, keyOf, iv, head, tag, body, WireId(pr, id), sn);
    MaskTwice(pr.cipher, ekey, iv, sn, payload);
  }
}
