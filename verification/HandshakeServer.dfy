/**
 The server's side of the handshake as values, and the whole exchange: an honest server's answers take the
 client from the cookie step to a session whose packets the server can open.
 */
module HandshakeServer {
  import opened Common
  import opened Arith
  import opened Digits
  import opened Bytes
  import opened Ctr
  import opened Sequence
  import opened CryptPacket
  import opened NaturalMod
  import opened DiffieHellman
  import opened Handshake
  import Stack

  // ----- reading requests: vector | id, seq | body | padding

  /** The first pass unscrambles id and sequence number. */
  function ReadHead(cfg: Config, packet: seq<Octet>): (r: (nat, nat))
    requires cfg.pr.ivSize <= 8 && |packet| >= cfg.pr.ivSize + cfg.pr.idSize + 4
  {
    var i := cfg.pr.ivSize;
    var first := cfg.pr.Scramble(packet[..i], packet[i..i + cfg.pr.idSize + 4]);
    (LeValue(first[..cfg.pr.idSize]), LeValue(first[cfg.pr.idSize..]))
  }

  /** The second pass runs over the whole request again, scrambling id and number back while it opens the body. */
  function ReadBody(cfg: Config, n: nat, packet: seq<Octet>): (s: seq<Octet>)
    requires cfg.pr.ivSize <= 8 && |packet| >= cfg.pr.ivSize + cfg.pr.idSize + 4 + n
    ensures |s| == n
  {
    var i, k := cfg.pr.ivSize, cfg.pr.idSize + 4;
    var first := cfg.pr.Scramble(packet[..i], packet[i..i + k]);
    cfg.pr.Scramble(packet[..i], first + packet[i + k..i + k + n])[k..]
  }

  /** Masking works byte by byte, so a prefix may be masked alone and masked back with the rest. */
  lemma {:induction false} MaskTwoPasses(c: Cipher, ekey: seq<Octet>, iv: Iv, sn: nat, head: seq<Octet>,
      body: seq<Octet>)
    ensures var sent := Mask(c, ekey, iv, sn, head + body);
            && Mask(c, ekey, iv, sn, sent[..|head|]) == head
            && Mask(c, ekey, iv, sn, head + sent[|head|..])[|head|..] == body
  {
    hide KeyByte, XorOctet;
    var sent := Mask(c, ekey, iv, sn, head + body);
    forall i | 0 <= i < |sent|
      ensures XorOctet(sent[i], KeyByte(c, ekey, iv, sn, i)) == (head + body)[i]
    {
      XorTwiceOctet((head + body)[i], KeyByte(c, ekey, iv, sn, i));
    }
    var back := Mask(c, ekey, iv, sn, head + sent[|head|..]);
    forall i | 0 <= i < |body| ensures back[|head|..][i] == body[i] {
      assert (head + body)[|head| + i] == body[i];
    }
    assert back[|head|..] == body;
  }

  lemma {:induction false} XorTwiceOctet(a: Octet, b: Octet)
    ensures XorOctet(XorOctet(a, b), b) == a
  {
    XorTwice(a, b);
  }

  /** The server reads back the id, the sequence number and the body the client wrote. */
  lemma {:induction false} RequestRead(cfg: Config, reqId: nat, seqNo: nat, body: seq<Octet>, a: Draw)
    requires cfg.pr.Valid() && a.Valid(cfg) && reqId < 256 && seqNo < M32
    ensures var packet := BodyRequest(cfg, reqId, seqNo, body, a);
            && cfg.ValidLength(cfg.pr.ivSize + cfg.pr.idSize + 4 + |body|, |packet|)
            && |packet| >= cfg.pr.ivSize + cfg.pr.idSize + 4 + |body|
            && ReadHead(cfg, packet) == (reqId, seqNo) && ReadBody(cfg, |body|, packet) == body
  {
    hide LeBytes, LeValue, Mask, DigitAt;
    var head := LeBytes(reqId, cfg.pr.idSize) + LeBytes(seqNo, 4);
    var sent := cfg.pr.Scramble(a.iv, head + body);
    var packet := BodyRequest(cfg, reqId, seqNo, body, a);
    var i, k := cfg.pr.ivSize, cfg.pr.idSize + 4;
    assert packet == a.iv + sent + a.pad;
    assert packet[..i] == a.iv && packet[i..i + k] == sent[..k] && packet[i + k..i + k + |body|] == sent[k..];
    MaskTwoPasses(cfg.pr.cipher, cfg.pr.cipher.expand(cfg.pr.certHash), a.iv, HEADER_SEQ, head, body);
    HeaderFields(cfg.pr, reqId, seqNo, head);
    SmallId(cfg.pr, reqId);
  }

  lemma {:induction false} CookieRequestRead(cfg: Config, seqNo: nat, a: Draw)
    requires cfg.pr.Valid() && a.Valid(cfg) && seqNo < M32
    ensures var packet := CookieRequest(cfg, seqNo, a);
            && cfg.ValidLength(cfg.pr.ivSize + cfg.pr.idSize + 12, |packet|)
            && |packet| >= cfg.pr.ivSize + cfg.pr.idSize + 12
            && ReadHead(cfg, packet) == (COOKIE_REQUEST, seqNo)
  {
    hide LeBytes, LeValue, Mask, DigitAt;
    var head := LeBytes(COOKIE_REQUEST, cfg.pr.idSize) + LeBytes(seqNo, 4);
    var sent := cfg.pr.Scramble(a.iv, head);
    var packet := CookieRequest(cfg, seqNo, a);
    var i, k := cfg.pr.ivSize, cfg.pr.idSize + 4;
    assert packet == a.iv + sent + a.unused + a.pad;
    assert packet[..i] == a.iv && packet[i..i + k] == sent;
    ScrambleTwice(cfg.pr, a.iv, head);
    HeaderFields(cfg.pr, COOKIE_REQUEST, seqNo, head);
    SmallId(cfg.pr, COOKIE_REQUEST);
  }

  lemma {:induction false} SmallId(pr: Params, id: nat)
    requires pr.Valid() && id < 256
    ensures WireId(pr, id) == id
  {
    PowAdd(256, 1, pr.idSize - 1);
    PowPositive(256, pr.idSize - 1);
    assert Pow(256, 1) == 256;
    MulLe(1, Pow(256, pr.idSize - 1), 256);
    DivModUnique(id, Pow(256, pr.idSize), 0, id);
  }

  // ----- cookie and certificate replies

  function ReplyPacket(cfg: Config, seqNo: nat, body: seq<Octet>, iv: Iv, pad: seq<Octet>): seq<Octet>
  {
    iv + cfg.pr.Scramble(iv, LeBytes(seqNo, 4) + body) + pad
  }

  lemma {:induction false} ReplyRead(cfg: Config, seqNo: nat, body: seq<Octet>, iv: Iv, pad: seq<Octet>)
    requires cfg.pr.Valid() && |iv| == cfg.pr.ivSize && seqNo < M32 && (cfg.pad || pad == [])
    ensures Unscramble(cfg, 4 + |body|, 4 + |body|, ReplyPacket(cfg, seqNo, body, iv, pad))
         == Good(LeBytes(seqNo, 4) + body)
    ensures Field(LeBytes(seqNo, 4) + body, 0, 4) == seqNo
  {
    hide LeBytes, LeValue, Mask, DigitAt;
    var clear := LeBytes(seqNo, 4) + body;
    var packet := ReplyPacket(cfg, seqNo, body, iv, pad);
    var sent, i := cfg.pr.Scramble(iv, clear), cfg.pr.ivSize;
    assert packet == iv + sent + pad;
    assert packet[..i] == iv && packet[i..i + |clear|] == sent;
    ScrambleTwice(cfg.pr, iv, clear);
    assert clear[0..4] == LeBytes(seqNo, 4);
    SeqNumberRoundTrip(seqNo);
  }

  lemma {:induction false} CookieAccepted(cfg: Config, seqNo: nat, cookie: nat, iv: Iv, pad: seq<Octet>)
    requires cfg.pr.Valid() && |iv| == cfg.pr.ivSize && seqNo < M32 && cookie < M32 && (cfg.pad || pad == [])
    ensures CookieReply(cfg, seqNo, ReplyPacket(cfg, seqNo, LeBytes(cookie, 4), iv, pad)) == Good(cookie)
  {
    hide LeBytes, LeValue, Mask, DigitAt;
    ReplyRead(cfg, seqNo, LeBytes(cookie, 4), iv, pad);
    SeqNumberRoundTrip(cookie);
    assert (LeBytes(seqNo, 4) + LeBytes(cookie, 4))[4..8] == LeBytes(cookie, 4);
  }

  lemma {:induction false} CertificateAccepted(cfg: Config, seqNo: nat, certificate: seq<Octet>, iv: Iv,
      pad: seq<Octet>)
    requires cfg.pr.Valid() && |iv| == cfg.pr.ivSize && seqNo < M32
    requires (cfg.pad || pad == []) && |certificate| == KEY_SIZE
    ensures CertificateReply(cfg, seqNo, ReplyPacket(cfg, seqNo, certificate, iv, pad))
         == if cfg.hash(certificate) == cfg.pr.certHash then Good(certificate) else Bad(BadCertificate)
  {
    hide LeBytes, LeValue, Mask, DigitAt;
    ReplyRead(cfg, seqNo, certificate, iv, pad);
    assert (LeBytes(seqNo, 4) + certificate)[4..] == certificate;
  }

  /** A reply to another request is refused, at the cookie step and at the certificate step. */
  lemma {:induction false} ForeignReplyRefused(cfg: Config, seqNo: nat, mine: nat, cookie: nat, certificate: seq<Octet>,
      iv: Iv, pad: seq<Octet>)
    requires cfg.pr.Valid() && |iv| == cfg.pr.ivSize && seqNo < M32 && (cfg.pad || pad == [])
    requires |certificate| == KEY_SIZE && seqNo != mine
    ensures CookieReply(cfg, mine, ReplyPacket(cfg, seqNo, LeBytes(cookie, 4), iv, pad)) == Bad(BadSeq)
    ensures CertificateReply(cfg, mine, ReplyPacket(cfg, seqNo, certificate, iv, pad)) == Bad(BadSeq)
  {
    hide LeBytes, LeValue, Mask, DigitAt, ReplyPacket;
    ReplyRead(cfg, seqNo, LeBytes(cookie, 4), iv, pad);
    ReplyRead(cfg, seqNo, certificate, iv, pad);
  }

  /** Without padding a reply of any other length is refused at every step; with padding, a shorter one. */
  lemma {:induction false} WrongLengthRefused(cfg: Config, mine: nat, key: seq<Octet>, certificate: seq<Octet>,
      data: seq<Octet>)
    requires cfg.Valid() && LeValue(certificate) > 0
    ensures var n := cfg.pr.ivSize;
            && (|data| < n + 8 || (!cfg.pad && |data| > n + 8) ==>
                  CookieReply(cfg, mine, data) == Bad(Refusal.BadLength))
            && (|data| < n + 132 || (!cfg.pad && |data| > n + 132) ==>
                  CertificateReply(cfg, mine, data) == Bad(Refusal.BadLength))
            && (|data| < n + 285 || (!cfg.pad && |data| > n + 285) ==>
                  KeyReply(cfg, mine, key, certificate, data) == Bad(Refusal.BadLength))
  {
    hide LeBytes, LeValue, Mask, Mac, DigitAt, Accepts, Modulus, RequestKey, SignedBlock, OpenSignature;
  }

  // ----- the key reply

  /** What the server draws at random for one key reply. */
  datatype Nonces = Nonces(iv: Iv, iv1: seq<Octet>, iv2: seq<Octet>, y: nat, seq2: nat, reserved: seq<Octet>,
                           tail: seq<Octet>, pad: seq<Octet>)
  {
    ghost predicate Valid(cfg: Config)
    {
      && |iv| == cfg.pr.ivSize && |iv1| == |iv2| == 8 && seq2 < M32 && |reserved| == 16
      && |tail| == 47 && tail[46] < 128 && (cfg.pad || pad == [])
    }
  }

  /** The inner clear text. */
  function SignedText(seqNo: nat, s: Session, reserved: seq<Octet>): seq<Octet>
  {
    LeBytes(SIGNED_MAGIC_1, 8) + LeBytes(SIGNED_MAGIC_2, 8) + [VERSION]
    + (LeBytes(seqNo, 4) + LeBytes(s.id, 8) + s.key + (LeBytes(s.timeout, 4) + reserved))
  }

  /** A sealed text: vector, MAC and masked text. */
  function Envelope(c: Cipher, ekey: seq<Octet>, iv: seq<Octet>, sn: nat, text: seq<Octet>): seq<Octet>
    requires |iv| == 8
  {
    iv + LeBytes(Mac(c, ekey, iv, sn, text), 8) + Mask(c, ekey, iv, sn, text)
  }

  /** The block to be signed; the top bit is clear. */
  function Block128(c: Cipher, ekey: seq<Octet>, seqNo: nat, s: Session, r: Nonces): seq<Octet>
    requires |r.iv1| == 8
  {
    Envelope(c, ekey, r.iv1, r.seq2, SignedText(seqNo, s, r.reserved)) + r.tail
  }

  function ServerKey(cfg: Config, clientPub: nat, y: nat): seq<Octet>
    requires cfg.Valid()
  {
    cfg.pr.cipher.expand(cfg.hash(LeBytes(Pow(clientPub, y) % Modulus(cfg.prime), KEY_SIZE)))
  }

  /** The RSA key: an exponent undone by the public one, for a modulus whose top bit is set. */
  ghost predicate SignsFor(d: nat, n: nat)
  {
    && d > 0 && Pow(256, KEY_SIZE) <= 2 * n && n < Pow(256, KEY_SIZE)
    && forall m: nat :: m < n ==> Pow(Pow(m, d) % n, RSA_EXPONENT) % n == m
  }

  function Sign(d: nat, n: nat, m: nat): nat
    requires n > 0
  {
    Pow(m, d) % n
  }

  function KeyReplyPacket(cfg: Config, seqNo: nat, clientPub: nat, d: nat, n: nat, s: Session, r: Nonces): seq<Octet>
    requires cfg.Valid() && |r.iv1| == |r.iv2| == 8 && n > 0
  {
    var c, ekey := cfg.pr.cipher, ServerKey(cfg, clientPub, r.y);
    var signature := Sign(d, n, LeValue(Block128(c, ekey, seqNo, s, r)));
    ReplyPacket(cfg, seqNo, LeBytes(Pow(2, r.y) % Modulus(cfg.prime), KEY_SIZE) + LeBytes(r.seq2, 4), r.iv, [])
    + Envelope(c, ekey, r.iv2, r.seq2, [VERSION] + LeBytes(MAGIC, 4) + LeBytes(signature, KEY_SIZE)) + r.pad
  }

  ghost predicate ValidSession(s: Session)
  {
    s.id < M64 && |s.key| == 16 && AcceptableTimeout(s.timeout)
  }

  lemma {:induction false} MacFits(c: Cipher, ekey: seq<Octet>, iv: Iv, sn: nat, text: seq<Octet>)
    ensures Mac(c, ekey, iv, sn, text) < Pow(256, 8)
  {
    hide FinalBlock, Pow, Val, DigitAt;
    ValBound(FinalBlock(c, ekey, iv, sn, text)[..8], 256, 8);
  }

  /** A sealed text opens to the text, and the MAC found is the MAC of it. */
  lemma {:induction false} EnvelopeOpens(c: Cipher, ekey: seq<Octet>, iv: seq<Octet>, sn: nat, text: seq<Octet>)
    requires |iv| == 8
    ensures var e := Envelope(c, ekey, iv, sn, text);
            && |e| == 16 + |text| && e[..8] == iv && Mask(c, ekey, iv, sn, e[16..]) == text
            && Field(e, 8, 8) == Mac(c, ekey, iv, sn, text)
  {
    hide LeBytes, LeValue, Mask, Mac, DigitAt;
    var e := Envelope(c, ekey, iv, sn, text);
    assert e[8..16] == LeBytes(Mac(c, ekey, iv, sn, text), 8);
    assert e[16..] == Mask(c, ekey, iv, sn, text);
    MaskTwice(c, ekey, iv, sn, text);
    MacFits(c, ekey, iv, sn, text);
    BytesDenote(Mac(c, ekey, iv, sn, text), 8);
  }

  lemma {:induction false} Cut(a: seq<Octet>, b: seq<Octet>, i: nat, j: nat)
    requires i <= j
    ensures j <= |a| ==> (a + b)[i..j] == a[i..j]
    ensures |a| <= i && j <= |a + b| ==> (a + b)[i..j] == b[i - |a|..j - |a|]
  {
  }

  lemma {:induction false} SignedTextFields(seqNo: nat, s: Session, reserved: seq<Octet>)
    requires seqNo < M32 && ValidSession(s) && |reserved| == 16
    ensures var t := SignedText(seqNo, s, reserved);
            && |t| == 65 && Field(t, 0, 8) == SIGNED_MAGIC_1 && Field(t, 8, 8) == SIGNED_MAGIC_2
            && t[16] == VERSION && Field(t, 17, 4) == seqNo
            && Field(t, 21, 8) == s.id && t[29..45] == s.key && Field(t, 45, 4) == s.timeout
  {
    hide LeBytes, LeValue, DigitAt, Pow;
    var t := SignedText(seqNo, s, reserved);
    assert t[0..8] == LeBytes(SIGNED_MAGIC_1, 8) && t[8..16] == LeBytes(SIGNED_MAGIC_2, 8);
    var front := LeBytes(SIGNED_MAGIC_1, 8) + LeBytes(SIGNED_MAGIC_2, 8) + [VERSION];
    var back := LeBytes(seqNo, 4) + LeBytes(s.id, 8) + s.key + (LeBytes(s.timeout, 4) + reserved);
    assert back[0..4] == LeBytes(seqNo, 4) && back[4..12] == LeBytes(s.id, 8) && back[12..28] == s.key;
    assert back[28..32] == LeBytes(s.timeout, 4);
    Cut(front, back, 17, 21);
    Cut(front, back, 21, 29);
    Cut(front, back, 29, 45);
    Cut(front, back, 45, 49);
    Pow8();
    BytesDenote(SIGNED_MAGIC_1, 8);
    BytesDenote(SIGNED_MAGIC_2, 8);
    BytesDenote(s.id, 8);
    SeqNumberRoundTrip(seqNo);
    SeqNumberRoundTrip(s.timeout);
  }

  lemma {:induction false} Pow8()
    ensures Pow(256, 8) == M64 && Pow(256, 4) == M32
  {
    assert Pow(256, 4) == M32;
    PowAdd(256, 4, 4);
  }

  /** The signed block, once recovered, yields the session. */
  lemma {:induction false} BlockAccepted(c: Cipher, ekey: seq<Octet>, seqNo: nat, s: Session, r: Nonces)
    requires seqNo < M32 && ValidSession(s) && |r.iv1| == 8 && |r.reserved| == 16 && |r.tail| == 47
    ensures var b := Block128(c, ekey, seqNo, s, r);
            |b| == KEY_SIZE && b[127] == r.tail[46] && SignedBlock(c, ekey, seqNo, r.seq2, b) == Good(s)
  {
    hide LeBytes, LeValue, Mask, Mac, DigitAt, SignedText, Envelope;
    var text := SignedText(seqNo, s, r.reserved);
    SignedTextFields(seqNo, s, r.reserved);
    EnvelopeOpens(c, ekey, r.iv1, r.seq2, text);
    var e, b := Envelope(c, ekey, r.iv1, r.seq2, text), Block128(c, ekey, seqNo, s, r);
    assert b == e + r.tail;
    assert b[..8] == e[..8] && b[16..81] == e[16..] && b[8..16] == e[8..16];
    SignedBlockIff(c, ekey, seqNo, r.seq2, b, s);
  }

  // ----- signatures

  lemma {:induction false} ZeroResult(m: nat)
    requires m > 0
    ensures ModResult(0, m) == 0
  {
    DivModUnique(0, m, 0, 0);
  }

  lemma {:induction false} ZeroSquares(m: nat, i: nat)
    requires m > 0
    ensures Squares(0, m, i) == 0
  {
    hide ModResult;
    if i == 0 {
    } else {
      ZeroSquares(m, i - 1);
      ZeroResult(m);
    }
  }

  lemma {:induction false} ZeroPowers(e: nat, m: nat, i: nat)
    requires m > 0 && i > 0 && e % 2 == 1
    ensures Powers(0, e, m, i) == 0
  {
    hide ModResult;
    assert DigitAt(e, 2, 0) == 1 by { assert Pow(2, 0) == 1; }
    ZeroSquares(m, i - 1);
    ZeroResult(m);
    if i > 1 { ZeroPowers(e, m, i - 1); }
  }

  lemma {:induction false} OddHasBits(e: nat)
    requires e % 2 == 1
    ensures BitLen(e) > 0
  {
  }

  /** The client's arithmetic opens a signature exactly, zero included. */
  lemma {:induction false} SignatureOpens(d: nat, n: nat, m: nat, e: nat)
    requires n > 0 && d > 0 && m < n && e % 2 == 1 && Pow(Pow(m, d) % n, e) % n == m
    ensures ModExpResult(Sign(d, n, m), e, n) == m
  {
    hide Powers, BitLen;
    ModExpCorrect(Sign(d, n, m), e, n);
    if m == 0 {
      SignZero(d, n);
      OddHasBits(e);
      ZeroPowers(e, n, BitLen(e));
    }
  }

  lemma {:induction false} SignZero(d: nat, n: nat)
    requires n > 0 && d > 0
    ensures Sign(d, n, 0) == 0
  {
    assert Pow(0, d) == 0 * Pow(0, d - 1);
    DivModUnique(0, n, 0, 0);
  }

  lemma {:induction false} TopBitClear(b: seq<Octet>, n: nat)
    requires |b| == KEY_SIZE && b[127] < 128 && Pow(256, KEY_SIZE) <= 2 * n
    ensures LeValue(b) < n
  {
    hide DigitAt;
    var k: nat := 127;
    assert Val(b, 256, k + 1) == Val(b, 256, k) + b[k] * Pow(256, k);
    assert Pow(256, k + 1) == 256 * Pow(256, k);
    ValBound(b, 256, k);
    MulLe(b[k], 127, Pow(256, k));
  }

  /** The certificate recovers the block the server signed. */
  lemma {:induction false} BlockRecovered(certificate: seq<Octet>, d: nat, b: seq<Octet>)
    requires |b| == KEY_SIZE && b[127] < 128 && SignsFor(d, LeValue(certificate))
    ensures var n := LeValue(certificate);
            && n > 0 && OpenSignature(certificate, Sign(d, n, LeValue(b))) == b
            && Sign(d, n, LeValue(b)) < Pow(256, KEY_SIZE)
  {
    hide LeBytes, LeValue, DigitAt, Pow, ModExpResult, Sign;
    var n, e, k := LeValue(certificate), RSA_EXPONENT, KEY_SIZE;
    PowPositive(256, k);
    TopBitClear(b, n);
    SignatureOpens(d, n, LeValue(b), e);
    LeRoundTripBytes(b);
    SignBelow(d, n, LeValue(b));
  }

  lemma {:induction false} SignBelow(d: nat, n: nat, m: nat)
    requires n > 0
    ensures Sign(d, n, m) < n
  {
  }

  // ----- the key step, both sides

  /** The reply splits into vector, scrambled header, envelope and padding. */
  lemma {:induction false} KeyPacketParts(cfg: Config, head: seq<Octet>, e: seq<Octet>, iv: Iv, pad: seq<Octet>,
      packet: seq<Octet>)
    requires cfg.pr.Valid() && |iv| == cfg.pr.ivSize && |head| == 136 && |e| == 149 && (cfg.pad || pad == [])
    requires packet == iv + cfg.pr.Scramble(iv, head) + [] + e + pad
    ensures Unscramble(cfg, 285, 136, packet) == Good(head)
    ensures |packet| >= cfg.pr.ivSize + 285 && packet[cfg.pr.ivSize + 136..cfg.pr.ivSize + 285] == e
  {
    hide LeBytes, LeValue, Mask, DigitAt;
    var i := cfg.pr.ivSize;
    assert packet[..i] == iv && packet[i..i + 136] == cfg.pr.Scramble(iv, head);
    ScrambleTwice(cfg.pr, iv, head);
  }

  /** Behind the header: the client opens what the server sealed under the shared secret. */
  lemma {:induction false} KeyReplyBody(cfg: Config, seqNo: nat, key: seq<Octet>, certificate: seq<Octet>, d: nat,
                                        ekey: seq<Octet>, head: seq<Octet>, s: Session, r: Nonces, packet: seq<Octet>)
    requires cfg.Valid() && r.Valid(cfg) && seqNo < M32 && ValidSession(s) && SignsFor(d, LeValue(certificate))
    requires LeValue(certificate) > 0 && |head| == 136 && Field(head, 0, 4) == seqNo && Field(head, 132, 4) == r.seq2
    requires var pub := Field(head, 4, 128);
             Accepts(Modulus(cfg.prime), pub, LeValue(key)) ==> RequestKey(cfg, key, pub) == ekey
    requires var signature := Sign(d, LeValue(certificate), LeValue(Block128(cfg.pr.cipher, ekey, seqNo, s, r)));
             packet == r.iv + cfg.pr.Scramble(r.iv, head) + []
                       + Envelope(cfg.pr.cipher, ekey, r.iv2, r.seq2,
                                  [VERSION] + LeBytes(MAGIC, 4) + LeBytes(signature, KEY_SIZE))
                       + r.pad
    ensures KeyReply(cfg, seqNo, key, certificate, packet)
         == if Accepts(Modulus(cfg.prime), Field(head, 4, 128), LeValue(key)) then Good(s) else Bad(BadParameter)
  {
    hide LeBytes, LeValue, Mask, Mac, DigitAt, Pow, Accepts, RequestKey, SignedBlock, OpenSignature, Block128,
      Envelope, Sign,
      Unscramble, Params.Scramble, ModExpResult;
    var c := cfg.pr.cipher;
    var b := Block128(c, ekey, seqNo, s, r);
    var signature := Sign(d, LeValue(certificate), LeValue(b));
    var text := [VERSION] + LeBytes(MAGIC, 4) + LeBytes(signature, KEY_SIZE);
    BlockAccepted(c, ekey, seqNo, s, r);
    BlockRecovered(certificate, d, b);
    OuterText(signature);
    EnvelopeOpens(c, ekey, r.iv2, r.seq2, text);
    KeyPacketParts(cfg, head, Envelope(c, ekey, r.iv2, r.seq2, text), r.iv, r.pad, packet);
  }

  lemma {:induction false} OuterText(signature: nat)
    requires signature < Pow(256, KEY_SIZE)
    ensures var text: seq<Octet> := [VERSION] + LeBytes(MAGIC, 4) + LeBytes(signature, KEY_SIZE);
            |text| == 133 && text[0] == VERSION && Field(text, 1, 4) == MAGIC && Field(text, 5, 128) == signature
  {
    hide LeBytes, LeValue, DigitAt, Pow;
    var text: seq<Octet> := [VERSION] + LeBytes(MAGIC, 4) + LeBytes(signature, KEY_SIZE);
    assert text[1..5] == LeBytes(MAGIC, 4) && text[5..133] == LeBytes(signature, KEY_SIZE);
    SeqNumberRoundTrip(MAGIC);
    BytesDenote(signature, KEY_SIZE);
  }

  lemma {:induction false} KeyHeader(seqNo: nat, pub: nat, seq2: nat)
    requires seqNo < M32 && seq2 < M32 && pub < Pow(256, KEY_SIZE)
    ensures var head := LeBytes(seqNo, 4) + (LeBytes(pub, KEY_SIZE) + LeBytes(seq2, 4));
            |head| == 136 && Field(head, 0, 4) == seqNo && Field(head, 4, 128) == pub && Field(head, 132, 4) == seq2
  {
    hide LeBytes, LeValue, DigitAt, Pow;
    var head := LeBytes(seqNo, 4) + (LeBytes(pub, KEY_SIZE) + LeBytes(seq2, 4));
    assert head[0..4] == LeBytes(seqNo, 4) && head[4..132] == LeBytes(pub, KEY_SIZE);
    assert head[132..136] == LeBytes(seq2, 4);
    SeqNumberRoundTrip(seqNo);
    SeqNumberRoundTrip(seq2);
    BytesDenote(pub, KEY_SIZE);
  }

  /**
   An honest key reply to a client whose private key is `key`: the client obtains exactly the session issued,
   unless the server's public value or the secret is one the client refuses.
   */
  lemma {:induction false} KeyAccepted(cfg: Config, seqNo: nat, key: seq<Octet>, certificate: seq<Octet>, d: nat,
      s: Session, r: Nonces)
    requires cfg.Valid() && r.Valid(cfg) && seqNo < M32 && ValidSession(s) && SignsFor(d, LeValue(certificate))
    requires LeValue(certificate) > 0
    ensures var clientPub, pub := Public(cfg, LeValue(key)), Public(cfg, r.y);
            KeyReply(cfg, seqNo, key, certificate, KeyReplyPacket(cfg, seqNo, clientPub, d, LeValue(certificate), s, r))
            == if Accepts(Modulus(cfg.prime), pub, LeValue(key)) then Good(s) else Bad(BadParameter)
  {
    hide LeBytes, LeValue, Mask, Mac, DigitAt, Pow, Accepts, KeyReply, OpenSignature, Block128, Envelope, Sign,
      Params.Scramble,
      ModExpResult;
    var x, y, p := LeValue(key), r.y, Modulus(cfg.prime);
    var clientPub, pub := Public(cfg, x), Public(cfg, y);
    SameSecret(x, y, p);
    assert RequestKey(cfg, key, pub) == ServerKey(cfg, clientPub, y);
    KeyHeader(seqNo, pub, r.seq2);
    KeyReplyBody(cfg, seqNo, key, certificate, d, ServerKey(cfg, clientPub, y),
                 LeBytes(seqNo, 4) + (LeBytes(pub, KEY_SIZE) + LeBytes(r.seq2, 4)), s, r,
                 KeyReplyPacket(cfg, seqNo, clientPub, d, LeValue(certificate), s, r));
  }

  // ----- the server's answers

  datatype Answered = Answered(packet: seq<Octet>) | Tunnelled | LengthError | CookieError | DosError | ParameterError

  /** What the server holds for one source address: its cookie, certificate, signing exponent, and quota verdict. */
  datatype ServerView = ServerView(cookie: nat, certificate: seq<Octet>, d: nat, quota: bool)
  {
    ghost predicate Valid(cfg: Config)
    {
      && cookie < M32 && |certificate| == KEY_SIZE && cfg.hash(certificate) == cfg.pr.certHash
      && SignsFor(d, LeValue(certificate)) && LeValue(certificate) > 0
    }
  }

  /**
   The server's answer to a packet: the id decides what kind of request it is; any other id announces a tunnelled
   packet. The session and the nonces are what a key reply would use.
   */
  function Answer(cfg: Config, v: ServerView, packet: seq<Octet>, s: Session, r: Nonces): Answered
    requires cfg.Valid() && |r.iv1| == |r.iv2| == 8 && LeValue(v.certificate) > 0
  {
    var k := cfg.pr.ivSize + cfg.pr.idSize + 4;
    if |packet| <= k then LengthError else
    var (id, seqNo) := ReadHead(cfg, packet);
    if id == COOKIE_REQUEST then
      if !cfg.ValidLength(k + 8, |packet|) then LengthError
      else Answered(ReplyPacket(cfg, seqNo, LeBytes(v.cookie, 4), r.iv, r.pad))
    else if id == CERTIFICATE_REQUEST then
      if !cfg.ValidLength(k + 4, |packet|) then LengthError
      else if LeValue(ReadBody(cfg, 4, packet)) != v.cookie then CookieError
      else Answered(ReplyPacket(cfg, seqNo, v.certificate, r.iv, r.pad))
    else if id == KEY_REQUEST then
      if !cfg.ValidLength(k + 4 + KEY_SIZE, |packet|) then LengthError
      else AnswerKey(cfg, v, ReadBody(cfg, 4 + KEY_SIZE, packet), seqNo, s, r)
    else Tunnelled
  }

  /** The checks of a key request: cookie, quota, and the client's public value and the secret in range. */
  function AnswerKey(cfg: Config, v: ServerView, body: seq<Octet>, seqNo: nat, s: Session, r: Nonces): Answered
    requires cfg.Valid() && |r.iv1| == |r.iv2| == 8 && LeValue(v.certificate) > 0 && |body| == 4 + KEY_SIZE
  {
    var p, pub := Modulus(cfg.prime), LeValue(body[4..]);
    if LeValue(body[..4]) != v.cookie then CookieError
    else if !v.quota then DosError
    else if pub <= 1 || pub >= p - 1 || Pow(pub, r.y) % p == 1 then ParameterError
    else Answered(KeyReplyPacket(cfg, seqNo, pub, v.d, LeValue(v.certificate), s, r))
  }

  /** A request of the wrong length is not answered, whatever its id. */
  lemma {:induction false} WrongRequestLength(cfg: Config, v: ServerView, packet: seq<Octet>, s: Session, r: Nonces)
    requires cfg.Valid() && |r.iv1| == |r.iv2| == 8 && LeValue(v.certificate) > 0
    ensures var k, n, a := cfg.pr.ivSize + cfg.pr.idSize + 4, |packet|, Answer(cfg, v, packet, s, r);
            && (n <= k ==> a == LengthError)
            && (n > k ==>
                  var id := ReadHead(cfg, packet).0;
                  && (id == 0 && (n < k + 8 || (!cfg.pad && n > k + 8)) ==> a == LengthError)
                  && (id == 1 && (n < k + 4 || (!cfg.pad && n > k + 4)) ==> a == LengthError)
                  && (id == 2 && (n < k + 132 || (!cfg.pad && n > k + 132)) ==> a == LengthError))
  {
    hide LeBytes, LeValue, Mask, DigitAt, ReadHead, ReadBody, ReplyPacket, AnswerKey, Pow;
  }

  lemma {:induction false} CookieAnswered(cfg: Config, v: ServerView, seqNo: nat, a: Draw, s: Session, r: Nonces)
    requires cfg.Valid() && a.Valid(cfg) && seqNo < M32 && |r.iv1| == |r.iv2| == 8 && LeValue(v.certificate) > 0
    ensures Answer(cfg, v, CookieRequest(cfg, seqNo, a), s, r)
         == Answered(ReplyPacket(cfg, seqNo, LeBytes(v.cookie, 4), r.iv, r.pad))
  {
    hide LeBytes, LeValue, Mask, DigitAt, CookieRequest, ReadHead, ReadBody, ReplyPacket, AnswerKey, Pow;
    CookieRequestRead(cfg, seqNo, a);
  }

  lemma {:induction false} CertificateAnswered(cfg: Config, v: ServerView, seqNo: nat, cookie: nat, a: Draw, s: Session,
      r: Nonces)
    requires cfg.Valid() && a.Valid(cfg) && seqNo < M32 && cookie < M32
    requires |r.iv1| == |r.iv2| == 8 && LeValue(v.certificate) > 0
    ensures Answer(cfg, v, BodyRequest(cfg, CERTIFICATE_REQUEST, seqNo, LeBytes(cookie, 4), a), s, r)
         == if cookie == v.cookie then Answered(ReplyPacket(cfg, seqNo, v.certificate, r.iv, r.pad)) else CookieError
  {
    hide LeBytes, LeValue, Mask, DigitAt, BodyRequest, ReadHead, ReadBody, ReplyPacket, AnswerKey, Pow;
    RequestRead(cfg, CERTIFICATE_REQUEST, seqNo, LeBytes(cookie, 4), a);
    SeqNumberRoundTrip(cookie);
  }

  lemma {:induction false} KeyAnswered(cfg: Config, v: ServerView, seqNo: nat, cookie: nat, pub: nat, a: Draw,
      s: Session,
      r: Nonces)
    requires cfg.Valid() && a.Valid(cfg) && seqNo < M32 && cookie < M32 && pub < Pow(256, KEY_SIZE)
    requires |r.iv1| == |r.iv2| == 8 && LeValue(v.certificate) > 0
    ensures var p := Modulus(cfg.prime);
            Answer(cfg, v, BodyRequest(cfg, KEY_REQUEST, seqNo, LeBytes(cookie, 4) + LeBytes(pub, KEY_SIZE), a), s, r)
            == if cookie != v.cookie then CookieError
               else if !v.quota then DosError
               else if pub <= 1 || pub >= p - 1 || Pow(pub, r.y) % p == 1 then ParameterError
               else Answered(KeyReplyPacket(cfg, seqNo, pub, v.d, LeValue(v.certificate), s, r))
  {
    hide LeBytes, LeValue, Mask, DigitAt, BodyRequest, ReadHead, ReadBody, KeyReplyPacket, Pow;
    var body := LeBytes(cookie, 4) + LeBytes(pub, KEY_SIZE);
    RequestRead(cfg, KEY_REQUEST, seqNo, body, a);
    assert body[..4] == LeBytes(cookie, 4) && body[4..] == LeBytes(pub, KEY_SIZE);
    SeqNumberRoundTrip(cookie);
    BytesDenote(pub, KEY_SIZE);
  }

  // ----- the answers inside the encoding stack

  /** Replies are far smaller than the reply buffer. */
  lemma {:induction false} AnswerFits(cfg: Config, v: ServerView, packet: seq<Octet>, s: Session, r: Nonces)
    requires cfg.Valid() && |r.iv1| == |r.iv2| == 8 && |r.iv| == cfg.pr.ivSize
    requires |v.certificate| == KEY_SIZE && LeValue(v.certificate) > 0
    ensures var a := Answer(cfg, v, packet, s, r);
            a.Answered? ==> 0 < |a.packet| <= cfg.pr.ivSize + 285 + |r.pad|
  {
    hide LeValue, LeBytes, DigitAt, Mask, Mac, Pow, Modulus, ReadHead, ReadBody, Sign, Block128, ServerKey;
  }

  /** The server reads handshake requests and tunnelled packets apart by the id, the same way in both places. */
  lemma {:induction false} DispatchAgrees(cfg: Config, v: ServerView, packet: seq<Octet>, s: Session, r: Nonces,
      keyOf: nat -> seq<Octet>)
    requires cfg.Valid() && |r.iv1| == |r.iv2| == 8 && LeValue(v.certificate) > 0
    requires |packet| > cfg.pr.ivSize + cfg.pr.idSize + 4
    ensures Answer(cfg, v, packet, s, r).Tunnelled? <==> !ServerOpen(cfg.pr, keyOf, packet).Handshake?
  {
    hide LeValue, LeBytes, DigitAt, Mask, Mac, Pow, Modulus, ReplyPacket, KeyReplyPacket, ReadBody;
  }

  /** How a crypt layer of the stack treats packets of one source. */
  ghost function SourceOf(cfg: Config, v: ServerView, s: Session, r: Nonces, keyOf: nat -> seq<Octet>): Stack.Source
    requires cfg.Valid() && |r.iv1| == |r.iv2| == 8 && LeValue(v.certificate) > 0
  {
    Stack.Source(keyOf, (packet: seq<Octet>) =>
      var a := Answer(cfg, v, packet, s, r); if a.Answered? then Some(a.packet) else None)
  }

  lemma {:induction false} SourceBounded(cfg: Config, v: ServerView, s: Session, r: Nonces, keyOf: nat -> seq<Octet>)
    requires cfg.Valid() && |r.iv1| == |r.iv2| == 8 && |r.iv| == cfg.pr.ivSize && |r.pad| < 200
    requires |v.certificate| == KEY_SIZE && LeValue(v.certificate) > 0
    ensures SourceOf(cfg, v, s, r, keyOf).Bounded()
  {
    hide Answer, LeValue;
    var from := SourceOf(cfg, v, s, r, keyOf);
    forall packet | from.handle(packet).Some? ensures |from.handle(packet).value| <= Stack.MAX_PACKET {
      AnswerFits(cfg, v, packet, s, r);
    }
  }

  // ----- the whole exchange

  /** The draws of both ends in one round, and the clock when the answer arrives. */
  datatype Round = Round(a: Draw, session: Session, r: Nonces, now: nat, last: (nat, SeqKey))
  {
    ghost predicate Valid(cfg: Config)
    {
      a.Valid(cfg) && r.Valid(cfg) && ValidSession(session)
    }
  }

  /** The client asks, the server answers the packet it receives, and the client takes the answer, if there is one. */
  ghost function Ask(cfg: Config, s: ClientState, v: ServerView, d: Round): (t: ClientState)
    requires Inv(cfg, s) && Usable(cfg) && v.Valid(cfg) && d.Valid(cfg)
    ensures Inv(cfg, t)
  {
    var u := Request(s, d.a.seqNo, d.a.key);
    var answer := Answer(cfg, v, RequestPacket(cfg, u, d.a), d.session, d.r);
    if !answer.Answered? then u
    else
      ReplyKeepsInv(cfg, u, answer.packet, d.now, d.last.0, d.last.1);
      Reply(cfg, u, answer.packet, d.now, d.last.0, d.last.1).0
  }

  lemma {:induction false} CookieRound(cfg: Config, s: ClientState, v: ServerView, d: Round)
    requires Inv(cfg, s) && Usable(cfg) && v.Valid(cfg) && d.Valid(cfg) && s.step.ReqCookie?
    ensures Ask(cfg, s, v, d)
         == s.(seqNo := d.a.seqNo, id := v.cookie, step := if s.haveCert then ReqKey else ReqCertificate)
  {
    hide CookieReply, ReplyPacket, Usable, Answer, CookieRequest, SignsFor;
    CookieAnswered(cfg, v, d.a.seqNo, d.a, d.session, d.r);
    CookieAccepted(cfg, d.a.seqNo, v.cookie, d.r.iv, d.r.pad);
  }

  lemma {:induction false} CertificateRound(cfg: Config, s: ClientState, v: ServerView, d: Round)
    requires Inv(cfg, s) && Usable(cfg) && v.Valid(cfg) && d.Valid(cfg) && s.step.ReqCertificate? && s.id == v.cookie
    ensures Ask(cfg, s, v, d)
         == s.(seqNo := d.a.seqNo, haveCert := true, saveCert := true, certificate := v.certificate, step := ReqKey)
  {
    hide CertificateReply, ReplyPacket, Usable, Answer, BodyRequest, SignsFor;
    CertificateAnswered(cfg, v, d.a.seqNo, s.id, d.a, d.session, d.r);
    CertificateAccepted(cfg, d.a.seqNo, v.certificate, d.r.iv, d.r.pad);
  }

  /** The two ends agree to take these private keys: no trivial public value and no trivial secret. */
  ghost predicate Compatible(cfg: Config, x: nat, y: nat)
    requires cfg.Valid()
  {
    var p := Modulus(cfg.prime);
    2 <= Public(cfg, x) <= p - 2 && 3 <= Public(cfg, y) <= p - 2 && Public(cfg, x * y) != 1
  }

  lemma {:induction false} CompatibleKeys(cfg: Config, x: nat, y: nat)
    requires cfg.Valid()
    ensures var p := Modulus(cfg.prime);
            && (Accepts(p, Public(cfg, y), x) <==> 3 <= Public(cfg, y) <= p - 2 && Public(cfg, x * y) != 1)
            && Pow(Public(cfg, x), y) % p == Public(cfg, x * y)
  {
    hide ModExpResult, Pow, Modulus;
    SameSecret(x, y, Modulus(cfg.prime));
  }

  /** The client holds the session that the server issued in round d. */
  ghost predicate InSession(cfg: Config, t: ClientState, v: ServerView, d: Round)
  {
    && t.step.Finished? && t.id == d.session.id && t.ekey == cfg.pr.cipher.expand(d.session.key)
    && t.timeout == d.now + d.session.timeout && t.certificate == v.certificate
  }

  /**
   The key round against an honest server: it finishes, with the issued session, exactly for compatible keys; else the
   client stays at the key step and may ask again.
   */
  lemma {:induction false} KeyRound(cfg: Config, s: ClientState, v: ServerView, d: Round)
    requires Inv(cfg, s) && Usable(cfg) && v.Valid(cfg) && d.Valid(cfg) && s.step.ReqKey? && s.id == v.cookie && v.quota
    requires s.certificate == v.certificate
    ensures var t := Ask(cfg, s, v, d);
            if Compatible(cfg, LeValue(d.a.key), d.r.y) then InSession(cfg, t, v, d)
            else t == s.(seqNo := d.a.seqNo, key := d.a.key)
  {
    hide KeyReply, Answer, KeyReplyPacket, BodyRequest, Usable, LeValue, LeBytes, DigitAt, Pow, Accepts, Public,
      Modulus,
      SignsFor;
    var x := LeValue(d.a.key);
    KeyAnswered(cfg, v, d.a.seqNo, s.id, Public(cfg, x), d.a, d.session, d.r);
    KeyAccepted(cfg, d.a.seqNo, d.a.key, s.certificate, v.d, d.session, d.r);
    CompatibleKeys(cfg, x, d.r.y);
  }

  /** Several rounds in turn. */
  ghost function AskAll(cfg: Config, s: ClientState, v: ServerView, ds: seq<Round>): (t: ClientState)
    requires Inv(cfg, s) && Usable(cfg) && v.Valid(cfg) && forall d :: d in ds ==> d.Valid(cfg)
    ensures Inv(cfg, t)
    decreases ds
  {
    if ds == [] then s else AskAll(cfg, Ask(cfg, s, v, ds[0]), v, ds[1..])
  }

  /** Key rounds until the private keys are compatible: all earlier ones leave the client at the key step. */
  lemma {:induction false} KeyRounds(cfg: Config, s: ClientState, v: ServerView, ds: seq<Round>)
    requires Inv(cfg, s) && Usable(cfg) && v.Valid(cfg) && (forall d :: d in ds ==> d.Valid(cfg)) && ds != []
    requires s.step.ReqKey? && s.id == v.cookie && v.quota && s.certificate == v.certificate
    requires forall i :: 0 <= i < |ds| - 1 ==> !Compatible(cfg, LeValue(ds[i].a.key), ds[i].r.y)
    ensures var t, d := AskAll(cfg, s, v, ds), ds[|ds| - 1];
            if Compatible(cfg, LeValue(d.a.key), d.r.y) then InSession(cfg, t, v, d) else t.step.ReqKey?
    decreases ds
  {
    hide Ask, Usable, Compatible, LeValue, SignsFor, InSession;
    KeyRound(cfg, s, v, ds[0]);
    if |ds| == 1 {
      assert ds[1..] == [];
    } else {
      KeyRounds(cfg, Ask(cfg, s, v, ds[0]), v, ds[1..]);
    }
  }

  /** Rounds before the first key request: cookie, and certificate unless it is cached. */
  function Opening(s: ClientState): nat
  {
    if s.haveCert then 1 else 2
  }

  /**
   A starting client, with or without the server's certificate in its cache, and an honest server: after the opening
   rounds the client finishes in the first key round with compatible private keys, with the session issued in it, and
   in no round before.
   */
  lemma {:induction false} HandshakeCompletes(cfg: Config, s: ClientState, v: ServerView, ds: seq<Round>)
    requires Start(cfg, s) && Usable(cfg) && v.Valid(cfg) && v.quota && (forall d :: d in ds ==> d.Valid(cfg))
    requires (s.haveCert ==> s.certificate == v.certificate) && |ds| > Opening(s)
    requires forall i :: Opening(s) <= i < |ds| - 1 ==> !Compatible(cfg, LeValue(ds[i].a.key), ds[i].r.y)
    ensures var t, d := AskAll(cfg, s, v, ds), ds[|ds| - 1];
            if Compatible(cfg, LeValue(d.a.key), d.r.y) then InSession(cfg, t, v, d) else t.step.ReqKey?
  {
    hide Ask, Usable, Compatible, LeValue, SignsFor, InSession;
    CookieRound(cfg, s, v, ds[0]);
    var s1 := Ask(cfg, s, v, ds[0]);
    if s.haveCert {
      KeyRounds(cfg, s1, v, ds[1..]);
    } else {
      CertificateRound(cfg, s1, v, ds[1]);
      assert ds[1..][0] == ds[1] && ds[1..][1..] == ds[2..];
      KeyRounds(cfg, Ask(cfg, s1, v, ds[1]), v, ds[2..]);
    }
  }

  /** The session a server issues to a client at source, from the states its reads meet. */
  ghost function Issued(derive: (nat, nat) -> seq<Octet>, r: SessionKeys.Reads, source: nat, id: nat): Session
    requires r.Valid()
  {
    Session(id, SessionKeys.KeyFor(derive, r.Derived().gens, source, id), r.Timeout())
  }

  /**
   From a starting client to an open tunnel: once a key round has issued a session from safe reads, every non-empty
   packet the client seals is opened by the server, in every later state of the key rotation before the deadline.
   */
  lemma {:induction false} HandshakeThenTunnel(cfg: Config, s: ClientState, v: ServerView, ds: seq<Round>,
      derive: (nat, nat) -> seq<Octet>, source: nat, r: SessionKeys.Reads, es: seq<SessionKeys.Event>, id: nat,
      sn: nat, iv: Iv, payload: seq<Octet>)
    requires Start(cfg, s) && Usable(cfg) && v.Valid(cfg) && v.quota && (forall d :: d in ds ==> d.Valid(cfg))
    requires (s.haveCert ==> s.certificate == v.certificate) && |ds| > Opening(s)
    requires forall i :: Opening(s) <= i < |ds| ==>
               (Compatible(cfg, LeValue(ds[i].a.key), ds[i].r.y) <==> i == |ds| - 1)
    requires SessionKeys.Safe(r) && SessionKeys.Runs(r.Derived(), es) && id % 2 == r.Slot()
    requires ds[|ds| - 1].session == Issued(derive, r, source, id)
    requires SessionKeys.Exec(r.Derived(), es).now < r.Deadline()
    requires |iv| == cfg.pr.ivSize && sn < M32 && payload != [] && WireId(cfg.pr, id) > MAX_RESERVED_ID
    ensures var t, later := AskAll(cfg, s, v, ds), SessionKeys.Exec(r.Derived(), es);
            && t.step.Finished?
            && ServerOpen(cfg.pr, (wire: nat) => SessionKeys.KeyFor(derive, later.gens, source, wire),
                          ClientPacket(cfg.pr, t.ekey, t.id, sn, iv, payload)) == Payload(WireId(cfg.pr, id), payload)
  {
    hide LeValue, SignsFor, AskAll, ServerOpen, ClientPacket, Compatible, SessionKeys.KeyFor, SessionKeys.Runs,
      SessionKeys.Exec;
    HandshakeCompletes(cfg, s, v, ds);
    SessionKeys.IssuedKeyOpensPackets(cfg.pr, derive, source, r, es, id, sn, iv, payload);
  }

  /** Such sessions are ones the client accepts. */
  lemma {:induction false} IssuedIsValid(derive: (nat, nat) -> seq<Octet>, r: SessionKeys.Reads, source: nat,
      id: nat)
    requires SessionKeys.Safe(r) && id < M64 && forall x, y :: |derive(x, y)| == 16
    ensures ValidSession(Issued(derive, r, source, id))
  {
    SessionKeys.TimeoutInRange(r);
  }
}
