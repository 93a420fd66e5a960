/** The client's handshake as the program runs it: replies opened in place, the state updated field by field. */
module HandshakeClient {
  import opened Arith
  import opened Digits
  import opened Bytes
  import opened Buffers
  import opened Natural
  import opened NaturalMod
  import opened NaturalBytes
  import opened Ctr
  import opened Sequence
  import opened CryptLayer
  import opened DiffieHellman
  import opened Handshake

  /** Length check, then n bytes behind the vector unscrambled in place. */
  method OpenScrambled(cfg: Config, base: nat, n: nat, data: array<Octet>) returns (v: Verdict<seq<Octet>>)
    requires cfg.pr.Valid() && n <= base
    modifies data
    ensures v == Unscramble(cfg, base, n, old(data[..]))
    ensures ChangedOnly(data, cfg.pr.ivSize, n)
  {
    hide Mask, Mac, LeValue, DigitAt;
    var i := cfg.pr.ivSize;
    if !cfg.ValidLength(i + base, data.Length) { return Bad(Refusal.BadLength); }
    ghost var was := data[..];
    assert was[..i] == data[..i] && was[i..i + n] == data[i..i + n];
    Crypt(cfg.pr.cipher, data[..i], cfg.pr.certHash, data, i, n);
    v := Good(data[i..i + n]);
  }

  lemma {:induction false} ExponentBytes()
    ensures LeValue([1, 0, 1, 0]) == RSA_EXPONENT
  {
    var e: seq<Octet> := [1, 0, 1, 0];
    assert Val(e, 256, 0) == 0 && Pow(256, 0) == 1 && Pow(256, 1) == 256 && Pow(256, 2) == 65536;
    assert Val(e, 256, 1) == 1 && Val(e, 256, 2) == 1 && Val(e, 256, 3) == 65537 && Val(e, 256, 4) == 65537;
  }

  /** The signature raised to the public exponent modulo the certificate. */
  method VerifySignature(certificate: seq<Octet>, signature: seq<Octet>) returns (t: array<Octet>)
    requires |certificate| == |signature| == KEY_SIZE && LeValue(certificate) > 0
    ensures fresh(t) && t.Length == KEY_SIZE && t[..] == OpenSignature(certificate, LeValue(signature))
  {
    hide LeValue, LeBytes, DigitAt, ModExpResult;
    ghost var m, b := LeValue(certificate), LeValue(signature);
    var e0: seq<Octet> := [1, 0, 1, 0];
    ExponentBytes();
    var p := Load(certificate);
    var s := Load(signature);
    var e := Load(e0);
    var r := new Word[SIZE];
    ModExp(s, e, p, r, b, RSA_EXPONENT, m);
    t := new Octet[KEY_SIZE];
    Get(t, r, ModExpResult(b, RSA_EXPONENT, m));
  }

  /** The checks on the recovered block, which is decrypted in place. */
  method CheckBlock(c: Cipher, ekey: seq<Octet>, seqNo: nat, seq2: nat, t: array<Octet>) returns (v: Verdict<Session>)
    requires t.Length == KEY_SIZE
    modifies t
    ensures v == SignedBlock(c, ekey, seqNo, seq2, old(t[..]))
  {
    hide Mask, Mac, LeValue, DigitAt;
    ghost var block := t[..];
    assert block[16..81] == t[16..81] && block[..8] == t[..8] && block[8..16] == t[8..16];
    var tag := Decrypt(c, t[..8], seq2, ekey, t, 16, 65);
    assert t[8..16] == block[8..16];
    var signed := t[16..81];
    if LeValue(signed[0..8]) != SIGNED_MAGIC_1 || LeValue(signed[8..16]) != SIGNED_MAGIC_2 { return Bad(BadMagic); }
    if tag != LeValue(t[8..16]) { return Bad(Refusal.BadMac); }
    if signed[16] != VERSION { return Bad(BadVersion); }
    if LeValue(signed[17..21]) != seqNo { return Bad(BadSeq); }
    v := Good(Session(LeValue(signed[21..29]), signed[29..45], LeValue(signed[45..49])));
  }

  /** Everything behind the scrambled header: secret, outer envelope, signature, inner envelope. */
  method CheckKeyReply(cfg: Config, seqNo: nat, key: seq<Octet>, certificate: seq<Octet>, data: array<Octet>)
    returns (v: Verdict<Session>)
    requires cfg.Valid() && |key| == |certificate| == KEY_SIZE && LeValue(certificate) > 0
    modifies data
    ensures v == KeyReply(cfg, seqNo, key, certificate, old(data[..]))
  {
    hide Mask, Mac, LeValue, DigitAt, Accepts, SignedBlock, OpenSignature, ModExpResult, Modulus, Pow, LeBytes;
    var c, n := cfg.pr.cipher, cfg.pr.ivSize;
    ghost var was := data[..];
    var h := OpenScrambled(cfg, 285, 136, data);
    if h.Bad? { return Bad(h.why); }
    var head := h.value;
    ghost var rest := was[n + 136..n + 285];
    assert data[n + 136..n + 285] == rest;
    if LeValue(head[0..4]) != seqNo { return Bad(BadSeq); }
    var seq2 := LeValue(head[132..136]);
    var secret := new Octet[KEY_SIZE];
    var ok := SharedSecret(cfg.prime, key, head[4..132], secret);
    if !ok { return Bad(BadParameter); }
    var ekey := c.expand(cfg.hash(secret[..]));
    assert ekey == RequestKey(cfg, key, Field(head, 4, 128));
    assert data[n + 136..n + 144] == rest[..8] && data[n + 144..n + 152] == rest[8..16];
    assert data[n + 152..n + 285] == rest[16..];
    var tag := Decrypt(c, data[n + 136..n + 144], seq2, ekey, data, n + 152, 133);
    assert data[n + 144..n + 152] == rest[8..16];
    var clear := data[n + 152..n + 285];
    if tag != LeValue(data[n + 144..n + 152]) { return Bad(Refusal.BadMac); }
    if clear[0] != VERSION { return Bad(BadVersion); }
    if LeValue(clear[1..5]) != MAGIC { return Bad(BadMagic); }
    var t := VerifySignature(certificate, clear[5..133]);
    v := CheckBlock(c, ekey, seqNo, seq2, t);
  }

  // ----- requests

  /** Vector, scrambled id, number and body, and clear bytes behind them. */
  method WriteRequest(cfg: Config, reqId: nat, sn: nat, body: seq<Octet>, rest: seq<Octet>, a: Draw, data: array<Octet>)
    returns (size: nat)
    requires cfg.pr.Valid() && |a.iv| == cfg.pr.ivSize
    requires data.Length >= cfg.pr.ivSize + cfg.pr.idSize + 4 + |body| + |rest|
    modifies data
    ensures size <= data.Length
    ensures data[..size]
         == a.iv + cfg.pr.Scramble(a.iv, LeBytes(reqId, cfg.pr.idSize) + LeBytes(sn, 4) + body) + rest
  {
    hide LeBytes, Mask;
    var head := LeBytes(reqId, cfg.pr.idSize) + LeBytes(sn, 4) + body;
    var n := |a.iv| + |head|;
    SealHead(cfg.pr, a.iv, head, data, 0);
    ghost var front := data[0..n];
    Put(data, n, rest);
    size := n + |rest|;
    assert data[0..n] == front;
    assert data[..size] == data[0..n] + data[n..size];
  }

  lemma {:induction false} CookieRequestIs(cfg: Config, sn: nat, a: Draw)
    ensures CookieRequest(cfg, sn, a)
         == a.iv + cfg.pr.Scramble(a.iv, LeBytes(COOKIE_REQUEST, cfg.pr.idSize) + LeBytes(sn, 4) + [])
            + (a.unused + a.pad)
  {
    hide LeBytes, Mask;
    var head := LeBytes(COOKIE_REQUEST, cfg.pr.idSize) + LeBytes(sn, 4);
    assert head + [] == head;
  }

  method PublicBytes(cfg: Config, key: seq<Octet>) returns (pub: seq<Octet>)
    requires cfg.Valid() && |key| == KEY_SIZE
    ensures pub == LeBytes(Public(cfg, LeValue(key)), KEY_SIZE)
  {
    hide LeValue, LeBytes, DigitAt, Pow, Modulus;
    var out := new Octet[KEY_SIZE];
    PublicKey(cfg.prime, key, out);
    LeRoundTripBytes(out[..]);
    pub := out[..];
  }

  class Client {
    const cfg: Config
    var step: Step
    var haveCert: bool
    var saveCert: bool
    var certificate: seq<Octet>
    var id: nat
    var seqNo: nat
    var seqKey: SeqKey
    var key: seq<Octet>
    var ekey: seq<Octet>
    var timeout: nat

    ghost function State(): ClientState
      reads this
    {
      ClientState(step, haveCert, saveCert, certificate, id, seqNo, seqKey, key, ekey, timeout)
    }

    /** crypt_init: a certificate found in the cache has been checked against the hash. */
    constructor (cfg: Config, cached: seq<Octet>, found: bool)
      requires cfg.Valid() && |cached| == KEY_SIZE && (found ==> cfg.hash(cached) == cfg.pr.certHash)
      ensures this.cfg == cfg && Start(cfg, State()) && Inv(cfg, State())
      ensures haveCert == found && (found ==> certificate == cached)
    {
      this.cfg, step, haveCert, saveCert, certificate := cfg, ReqCookie, found, false, cached;
      id, seqNo, seqKey, key, ekey, timeout := 0, 0, SeqKey(0, 0, 0, 0), seq(KEY_SIZE, _ => 0), [], 0;
    }

    /** crypt_handshake_request: the state draws a number, and at the key step a private key; the packet is written. */
    method HandshakeRequest(a: Draw, data: array<Octet>) returns (size: nat)
      requires Inv(cfg, State()) && a.Valid(cfg) && data.Length >= 2 * KEY_SIZE + |a.pad|
      modifies this, data
      ensures State() == Request(old(State()), a.seqNo, a.key) && Inv(cfg, State())
      ensures size <= data.Length && data[..size] == RequestPacket(cfg, State(), a)
    {
      hide LeValue, LeBytes, DigitAt, Pow, Modulus;
      if step == Finished { return 0; }
      seqNo := a.seqNo;
      match step
      case ReqCookie =>
        size := WriteRequest(cfg, COOKIE_REQUEST, seqNo, [], a.unused + a.pad, a, data);
        CookieRequestIs(cfg, seqNo, a);
      case ReqCertificate =>
        size := WriteRequest(cfg, CERTIFICATE_REQUEST, seqNo, LeBytes(id, 4), a.pad, a, data);
      case ReqKey =>
        key := a.key;
        var pub := PublicBytes(cfg, key);
        size := WriteRequest(cfg, KEY_REQUEST, seqNo, LeBytes(id, 4) + pub, a.pad, a, data);
    }

    /** The reply to a cookie request. */
    method TakeCookie(data: array<Octet>, now: nat, drawn: nat, drawnKey: SeqKey) returns (code: Code)
      requires Inv(cfg, State()) && Usable(cfg) && step.ReqCookie?
      modifies this, data
      ensures (State(), code) == Reply(cfg, old(State()), old(data[..]), now, drawn, drawnKey)
    {
      hide Unscramble, LeValue, KeyReply, CertificateReply, Usable;
      var v := OpenScrambled(cfg, 8, 8, data);
      if v.Bad? { return Refused(v.why); }
      if LeValue(v.value[0..4]) != seqNo { return Refused(BadSeq); }
      id := LeValue(v.value[4..8]);
      step := if haveCert then ReqKey else ReqCertificate;
      code := Accepted(step);
    }

    /** The reply to a certificate request. */
    method TakeCertificate(data: array<Octet>, now: nat, drawn: nat, drawnKey: SeqKey) returns (code: Code)
      requires Inv(cfg, State()) && Usable(cfg) && step.ReqCertificate?
      modifies this, data
      ensures (State(), code) == Reply(cfg, old(State()), old(data[..]), now, drawn, drawnKey)
    {
      hide Unscramble, LeValue, KeyReply, CookieReply, Usable;
      var v := OpenScrambled(cfg, 4 + KEY_SIZE, 4 + KEY_SIZE, data);
      if v.Bad? { return Refused(v.why); }
      if LeValue(v.value[0..4]) != seqNo { return Refused(BadSeq); }
      if cfg.hash(v.value[4..]) != cfg.pr.certHash { return Refused(BadCertificate); }
      haveCert, saveCert, certificate, step := true, true, v.value[4..], ReqKey;
      code := Accepted(ReqKey);
    }

    /** The reply to a key request; the id is replaced before the timeout is checked. */
    method TakeKey(data: array<Octet>, now: nat, drawn: nat, drawnKey: SeqKey) returns (code: Code)
      requires Inv(cfg, State()) && Usable(cfg) && step.ReqKey?
      modifies this, data
      ensures (State(), code) == Reply(cfg, old(State()), old(data[..]), now, drawn, drawnKey)
    {
      hide Unscramble, LeValue, KeyReply, CookieReply, CertificateReply, Usable;
      ZeroIsNoCertificate(cfg, certificate);
      SessionKeySize(cfg, seqNo, key, certificate, data[..]);
      var v := CheckKeyReply(cfg, seqNo, key, certificate, data);
      if v.Bad? { return Refused(v.why); }
      id := v.value.id;
      if !AcceptableTimeout(v.value.timeout) { return Refused(BadTimeout); }
      timeout := now + v.value.timeout;
      key := v.value.key + key[16..];
      ekey := cfg.pr.cipher.expand(v.value.key);
      step, seqNo, seqKey := Finished, drawn, drawnKey;
      code := Accepted(Finished);
    }

    /** crypt_handshake_reply. */
    method HandshakeReply(data: array<Octet>, now: nat, drawn: nat, drawnKey: SeqKey) returns (code: Code)
      requires Inv(cfg, State()) && Usable(cfg)
      modifies this, data
      ensures (State(), code) == Reply(cfg, old(State()), old(data[..]), now, drawn, drawnKey)
      ensures Inv(cfg, State())
    {
      hide KeyReply, CookieReply, CertificateReply, Usable;
      ReplyKeepsInv(cfg, State(), data[..], now, drawn, drawnKey);
      match step
      case ReqCookie => code := TakeCookie(data, now, drawn, drawnKey);
      case ReqCertificate => code := TakeCertificate(data, now, drawn, drawnKey);
      case ReqKey => code := TakeKey(data, now, drawn, drawnKey);
      case Finished => code := Refused(BadState);
    }
  }

  lemma {:induction false} ZeroIsNoCertificate(cfg: Config, certificate: seq<Octet>)
    requires Usable(cfg) && |certificate| == KEY_SIZE && cfg.hash(certificate) == cfg.pr.certHash
    ensures LeValue(certificate) > 0
  {
  }
}
