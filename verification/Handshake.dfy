/** The client's side of the crypt handshake: three kinds of reply, checked and folded into the state. */
module Handshake {
  import opened Common
  import opened Arith
  import opened Digits
  import opened Bytes
  import opened Ctr
  import opened Sequence
  import opened CryptPacket
  import opened NaturalMod
  import opened DiffieHellman
  import SessionKeys

  const VERSION: nat := 0
  const MAGIC: nat := 0xA1C3952A
  const SIGNED_MAGIC_1: nat := 0xA614BF722967C0D7
  const SIGNED_MAGIC_2: nat := 0x843CD0BE88A8F703
  const RSA_EXPONENT: nat := 0x00010001

  datatype Step = Finished | ReqCookie | ReqCertificate | ReqKey

  datatype Refusal =
    BadLength | BadSeq | BadCertificate | BadParameter | BadMac | BadVersion | BadMagic | BadTimeout | BadState

  datatype Code = Accepted(step: Step) | Refused(why: Refusal)

  datatype Config = Config(pr: Params, pad: bool, hash: seq<Octet> -> seq<Octet>, prime: seq<Octet>)
  {
    ghost predicate Valid()
    {
      pr.Valid() && UsableModulus(prime)
    }

    /** Handshake packets may be extended at the end when padding is on. */
    predicate ValidLength(base: nat, size: nat)
    {
      if pad then size >= base else size == base
    }
  }

  /** The little-endian field of n bytes at off. */
  function Field(s: seq<Octet>, off: nat, n: nat): nat
    requires off + n <= |s|
  {
    LeValue(s[off..off + n])
  }

  datatype Verdict<T> = Good(value: T) | Bad(why: Refusal)

  /** The scrambled part of a reply, n bytes behind the vector, after the length check. */
  function Unscramble(cfg: Config, base: nat, n: nat, data: seq<Octet>): (v: Verdict<seq<Octet>>)
    requires cfg.pr.ivSize <= 8 && n <= base
    ensures v.Good? ==> |v.value| == n && |data| >= cfg.pr.ivSize + base
  {
    if !cfg.ValidLength(cfg.pr.ivSize + base, |data|) then Bad(Refusal.BadLength)
    else Good(cfg.pr.Scramble(data[..cfg.pr.ivSize], data[cfg.pr.ivSize..cfg.pr.ivSize + n]))
  }

  function CookieReply(cfg: Config, seqNo: nat, data: seq<Octet>): Verdict<nat>
    requires cfg.pr.ivSize <= 8
  {
    var v := Unscramble(cfg, 8, 8, data);
    if v.Bad? then Bad(v.why)
    else if Field(v.value, 0, 4) != seqNo then Bad(BadSeq)
    else Good(Field(v.value, 4, 4))
  }

  function CertificateReply(cfg: Config, seqNo: nat, data: seq<Octet>): (v: Verdict<seq<Octet>>)
    requires cfg.pr.ivSize <= 8
    ensures v.Good? ==> |v.value| == KEY_SIZE && cfg.hash(v.value) == cfg.pr.certHash
  {
    var v := Unscramble(cfg, 4 + KEY_SIZE, 4 + KEY_SIZE, data);
    if v.Bad? then Bad(v.why)
    else if Field(v.value, 0, 4) != seqNo then Bad(BadSeq)
    else if cfg.hash(v.value[4..]) != cfg.pr.certHash then Bad(BadCertificate)
    else Good(v.value[4..])
  }

  // ----- the key reply: seq, public value, seq2 | iv, mac | version, magic, signature

  /** The key that protects the rest of a key reply. */
  function RequestKey(cfg: Config, key: seq<Octet>, pub: nat): seq<Octet>
    requires cfg.Valid()
  {
    cfg.pr.cipher.expand(cfg.hash(LeBytes(ModExpResult(pub, LeValue(key), Modulus(cfg.prime)), KEY_SIZE)))
  }

  /** What the RSA signature opens to under the stored certificate. */
  function OpenSignature(certificate: seq<Octet>, signature: nat): (s: seq<Octet>)
    requires LeValue(certificate) > 0
    ensures |s| == KEY_SIZE
  {
    LeBytes(ModExpResult(signature, RSA_EXPONENT, LeValue(certificate)), KEY_SIZE)
  }

  datatype Session = Session(id: nat, key: seq<Octet>, timeout: nat)

  /** The signed block: iv, mac | magic1, magic2, version, seq, id, key, timeout, reserved. */
  function SignedBlock(c: Cipher, ekey: seq<Octet>, seqNo: nat, seq2: nat, block: seq<Octet>): Verdict<Session>
    requires |block| == KEY_SIZE
  {
    var iv: Iv := block[..8];
    var clear := Mask(c, ekey, iv, seq2, block[16..81]);
    if Field(clear, 0, 8) != SIGNED_MAGIC_1 || Field(clear, 8, 8) != SIGNED_MAGIC_2 then Bad(BadMagic)
    else if Mac(c, ekey, iv, seq2, clear) != Field(block, 8, 8) then Bad(Refusal.BadMac)
    else if clear[16] != VERSION then Bad(BadVersion)
    else if Field(clear, 17, 4) != seqNo then Bad(BadSeq)
    else Good(Session(Field(clear, 21, 8), clear[29..45], Field(clear, 45, 4)))
  }

  function KeyReply(cfg: Config, seqNo: nat, key: seq<Octet>, certificate: seq<Octet>,
      data: seq<Octet>): Verdict<Session>
    requires cfg.Valid() && LeValue(certificate) > 0
  {
    var v := Unscramble(cfg, 285, 136, data);
    if v.Bad? then Bad(v.why)
    else if Field(v.value, 0, 4) != seqNo then Bad(BadSeq) else
    var pub, seq2 := Field(v.value, 4, 128), Field(v.value, 132, 4);
    if !Accepts(Modulus(cfg.prime), pub, LeValue(key)) then Bad(BadParameter) else
    var ekey := RequestKey(cfg, key, pub);
    var rest := data[cfg.pr.ivSize + 136..cfg.pr.ivSize + 285];
    var iv: Iv := rest[..8];
    var clear := Mask(cfg.pr.cipher, ekey, iv, seq2, rest[16..]);
    if Mac(cfg.pr.cipher, ekey, iv, seq2, clear) != Field(rest, 8, 8) then Bad(Refusal.BadMac)
    else if clear[0] != VERSION then Bad(BadVersion)
    else if Field(clear, 1, 4) != MAGIC then Bad(BadMagic)
    else SignedBlock(cfg.pr.cipher, ekey, seqNo, seq2, OpenSignature(certificate, Field(clear, 5, 128)))
  }

  /** The range of timeouts that the client accepts. */
  predicate AcceptableTimeout(timeout: nat)
  {
    SessionKeys.MIN_TIMEOUT <= timeout <= SessionKeys.MAX_TIMEOUT
  }

  // ----- the state

  datatype ClientState = ClientState(
    step: Step, haveCert: bool, saveCert: bool, certificate: seq<Octet>, id: nat, seqNo: nat, seqKey: SeqKey,
    key: seq<Octet>, ekey: seq<Octet>, timeout: nat)

  /** What every reachable state keeps: no key step without a certificate, no certificate without its hash. */
  ghost predicate Inv(cfg: Config, s: ClientState)
  {
    && cfg.Valid() && |s.key| == |s.certificate| == KEY_SIZE
    && (s.step.ReqKey? || s.step.Finished? ==> s.haveCert)
    && (s.haveCert ==> cfg.hash(s.certificate) == cfg.pr.certHash)
  }

  /** The configured hash is not that of a zero certificate, which is no modulus. */
  ghost predicate Usable(cfg: Config)
  {
    forall c: seq<Octet> :: |c| == KEY_SIZE && cfg.hash(c) == cfg.pr.certHash ==> LeValue(c) > 0
  }

  ghost predicate Start(cfg: Config, s: ClientState)
  {
    s.step.ReqCookie? && |s.key| == |s.certificate| == KEY_SIZE && cfg.Valid()
    && (s.haveCert ==> cfg.hash(s.certificate) == cfg.pr.certHash)
  }

  /** The specification of crypt_handshake_reply. */
  ghost function Reply(cfg: Config, s: ClientState, data: seq<Octet>, now: nat, seqNo: nat,
      seqKey: SeqKey): (ClientState, Code)
    requires Inv(cfg, s) && Usable(cfg)
  {
    match s.step
    case ReqCookie =>
      var v := CookieReply(cfg, s.seqNo, data);
      var next := if s.haveCert then ReqKey else ReqCertificate;
      if v.Bad? then (s, Refused(v.why)) else (s.(id := v.value, step := next), Accepted(next))
    case ReqCertificate =>
      var v := CertificateReply(cfg, s.seqNo, data);
      if v.Bad? then (s, Refused(v.why))
      else (s.(haveCert := true, saveCert := true, certificate := v.value, step := ReqKey), Accepted(ReqKey))
    case ReqKey =>
      var v := KeyReply(cfg, s.seqNo, s.key, s.certificate, data);
      if v.Bad? then (s, Refused(v.why))
      else if !AcceptableTimeout(v.value.timeout) then (s.(id := v.value.id), Refused(BadTimeout))
      else (s.(id := v.value.id, timeout := now + v.value.timeout, key := v.value.key + s.key[16..],
               ekey := cfg.pr.cipher.expand(v.value.key), step := Finished, seqNo := seqNo, seqKey := seqKey),
            Accepted(Finished))
    case Finished => (s, Refused(BadState))
  }

  /** A request draws a fresh sequence number, and at the key step a fresh private key; the step stays. */
  ghost function Request(s: ClientState, seqNo: nat, key: seq<Octet>): ClientState
  {
    if s.step.Finished? then s
    else if s.step.ReqKey? then s.(seqNo := seqNo, key := key)
    else s.(seqNo := seqNo)
  }

  lemma {:induction false} SignedKeySize(c: Cipher, ekey: seq<Octet>, seqNo: nat, seq2: nat, block: seq<Octet>)
    requires |block| == KEY_SIZE
    ensures var v := SignedBlock(c, ekey, seqNo, seq2, block); v.Good? ==> |v.value.key| == 16
  {
    hide Mac, LeValue;
  }

  lemma {:induction false} SessionKeySize(cfg: Config, seqNo: nat, key: seq<Octet>, certificate: seq<Octet>,
      data: seq<Octet>)
    requires cfg.Valid() && LeValue(certificate) > 0
    ensures var v := KeyReply(cfg, seqNo, key, certificate, data); v.Good? ==> |v.value.key| == 16
  {
    hide Mac, LeValue, Accepts, RequestKey, SignedBlock;
    var v := Unscramble(cfg, 285, 136, data);
    if v.Good? {
      var pub, seq2 := Field(v.value, 4, 128), Field(v.value, 132, 4);
      var ekey := RequestKey(cfg, key, pub);
      var rest := data[cfg.pr.ivSize + 136..cfg.pr.ivSize + 285];
      var clear := Mask(cfg.pr.cipher, ekey, rest[..8], seq2, rest[16..]);
      SignedKeySize(cfg.pr.cipher, ekey, seqNo, seq2, OpenSignature(certificate, Field(clear, 5, 128)));
    }
  }

  // ----- requests

  const COOKIE_REQUEST: nat := 0
  const CERTIFICATE_REQUEST: nat := 1
  const KEY_REQUEST: nat := 2

  /** What the client draws for one request. */
  datatype Draw = Draw(seqNo: nat, key: seq<Octet>, iv: Iv, unused: seq<Octet>, pad: seq<Octet>)
  {
    ghost predicate Valid(cfg: Config)
    {
      && seqNo < M32 && |key| == KEY_SIZE && |iv| == cfg.pr.ivSize && |unused| == 8 && (cfg.pad || pad == [])
    }
  }

  /** A cookie request: only id and sequence number are scrambled, eight unused bytes follow. */
  function CookieRequest(cfg: Config, seqNo: nat, a: Draw): seq<Octet>
  {
    a.iv + cfg.pr.Scramble(a.iv, LeBytes(COOKIE_REQUEST, cfg.pr.idSize) + LeBytes(seqNo, 4)) + a.unused + a.pad
  }

  /** A certificate or key request. */
  function BodyRequest(cfg: Config, reqId: nat, seqNo: nat, body: seq<Octet>, a: Draw): seq<Octet>
  {
    a.iv + cfg.pr.Scramble(a.iv, LeBytes(reqId, cfg.pr.idSize) + LeBytes(seqNo, 4) + body) + a.pad
  }

  /** A public value, as a number. */
  ghost function Public(cfg: Config, x: nat): (v: nat)
    requires cfg.Valid()
    ensures v < Pow(256, KEY_SIZE)
  {
    Pow(2, x) % Modulus(cfg.prime)
  }

  /** The packet that crypt_handshake_request writes in state s. */
  ghost function RequestPacket(cfg: Config, s: ClientState, a: Draw): seq<Octet>
    requires cfg.Valid()
  {
    match s.step
    case ReqCookie => CookieRequest(cfg, s.seqNo, a)
    case ReqCertificate => BodyRequest(cfg, CERTIFICATE_REQUEST, s.seqNo, LeBytes(s.id, 4), a)
    case ReqKey =>
      BodyRequest(cfg, KEY_REQUEST, s.seqNo, LeBytes(s.id, 4) + LeBytes(Public(cfg, LeValue(s.key)), KEY_SIZE), a)
    case Finished => []
  }

  // ----- what it takes to finish

  /** The layers of a key reply: header, key for the rest, outer clear text, signed block, inner clear text. */
  datatype Layers = Layers(head: seq<Octet>, ekey: seq<Octet>, body: seq<Octet>, clear: seq<Octet>, block: seq<Octet>,
                           signed: seq<Octet>)
  {
    ghost predicate Sized()
    {
      |head| == 136 && |body| == 149 && |clear| == 133 && |block| == KEY_SIZE && |signed| == 65
    }

    function Pub(): nat requires |head| == 136 { Field(head, 4, 128) }
    function Seq2(): nat requires |head| == 136 { Field(head, 132, 4) }
  }

  ghost function Peel(cfg: Config, key: seq<Octet>, certificate: seq<Octet>, data: seq<Octet>): (l: Layers)
    requires cfg.Valid() && LeValue(certificate) > 0 && |data| >= cfg.pr.ivSize + 285
    ensures l.Sized()
  {
    var c, n := cfg.pr.cipher, cfg.pr.ivSize;
    var head := cfg.pr.Scramble(data[..n], data[n..n + 136]);
    var ekey, seq2 := RequestKey(cfg, key, Field(head, 4, 128)), Field(head, 132, 4);
    var body := data[n + 136..n + 285];
    var clear := Mask(c, ekey, body[..8], seq2, body[16..]);
    var block := OpenSignature(certificate, Field(clear, 5, 128));
    Layers(head, ekey, body, clear, block, Mask(c, ekey, block[..8], seq2, block[16..81]))
  }

  /** Both MACs, all magic numbers, both versions and both sequence numbers are right. */
  ghost predicate Passes(c: Cipher, l: Layers, seqNo: nat)
    requires l.Sized()
  {
    && Field(l.head, 0, 4) == Field(l.signed, 17, 4) == seqNo
    && Mac(c, l.ekey, l.body[..8], l.Seq2(), l.clear) == Field(l.body, 8, 8)
    && Mac(c, l.ekey, l.block[..8], l.Seq2(), l.signed) == Field(l.block, 8, 8)
    && Field(l.clear, 1, 4) == MAGIC
    && Field(l.signed, 0, 8) == SIGNED_MAGIC_1 && Field(l.signed, 8, 8) == SIGNED_MAGIC_2
    && l.clear[0] == l.signed[16] == VERSION
  }

  /** The checks a key reply has to pass, stated on its layers. */
  ghost predicate Genuine(cfg: Config, s: ClientState, data: seq<Octet>, session: Session)
    requires Inv(cfg, s) && Usable(cfg)
  {
    s.haveCert && |data| >= cfg.pr.ivSize + 285 && cfg.ValidLength(cfg.pr.ivSize + 285, |data|) &&
    var l := Peel(cfg, s.key, s.certificate, data);
    && Accepts(Modulus(cfg.prime), l.Pub(), LeValue(s.key))
    && Passes(cfg.pr.cipher, l, s.seqNo)
    && session == Session(Field(l.signed, 21, 8), l.signed[29..45], Field(l.signed, 45, 4))
    && AcceptableTimeout(session.timeout)
  }

  /** The answer, met in state u, was a genuine key reply, and the finished state t uses its session. */
  ghost predicate FinishedBy(cfg: Config, u: ClientState, data: seq<Octet>, now: nat, t: ClientState)
    requires Inv(cfg, u) && Usable(cfg)
  {
    && u.step.ReqKey? && |t.key| == KEY_SIZE && t.timeout >= now
    && Genuine(cfg, u, data, Session(t.id, t.key[..16], t.timeout - now))
    && t.ekey == cfg.pr.cipher.expand(t.key[..16])
  }

  lemma {:induction false} SignedBlockIff(c: Cipher, ekey: seq<Octet>, seqNo: nat, seq2: nat, block: seq<Octet>,
      session: Session)
    requires |block| == KEY_SIZE
    ensures var signed := Mask(c, ekey, block[..8], seq2, block[16..81]);
            SignedBlock(c, ekey, seqNo, seq2, block) == Good(session) <==>
              && Field(signed, 17, 4) == seqNo && signed[16] == VERSION
              && Mac(c, ekey, block[..8], seq2, signed) == Field(block, 8, 8)
              && Field(signed, 0, 8) == SIGNED_MAGIC_1 && Field(signed, 8, 8) == SIGNED_MAGIC_2
              && session == Session(Field(signed, 21, 8), signed[29..45], Field(signed, 45, 4))
  {
    hide Mac, LeValue, DigitAt;
  }

  /** The key step finishes exactly on a genuine reply, and then with that reply's session. */
  lemma {:induction false} FinishesIff(cfg: Config, s: ClientState, data: seq<Octet>, now: nat, seqNo: nat,
      seqKey: SeqKey)
    requires Inv(cfg, s) && Usable(cfg) && !s.step.Finished?
    ensures var (t, code) := Reply(cfg, s, data, now, seqNo, seqKey);
            && (code == Accepted(Finished) <==> t.step.Finished?)
            && (t.step.Finished? <==> s.step.ReqKey? && exists session :: Genuine(cfg, s, data, session))
            && (t.step.Finished? ==> FinishedBy(cfg, s, data, now, t))
  {
    hide CookieReply, CertificateReply, KeyReply, Genuine;
    if s.step.ReqKey? {
      var v := KeyReply(cfg, s.seqNo, s.key, s.certificate, data);
      forall session ensures Genuine(cfg, s, data, session)
        <==> v == Good(session) && AcceptableTimeout(session.timeout)
      {
        KeyReplyIff(cfg, s, data, session);
      }
      SessionKeySize(cfg, s.seqNo, s.key, s.certificate, data);
      if v.Good? {
        assert Genuine(cfg, s, data, v.value) <==> AcceptableTimeout(v.value.timeout);
        assert (v.value.key + s.key[16..])[..16] == v.value.key;
      }
    }
  }

  lemma {:induction false} KeyReplyIff(cfg: Config, s: ClientState, data: seq<Octet>, session: Session)
    requires Inv(cfg, s) && Usable(cfg) && s.haveCert
    ensures Genuine(cfg, s, data, session) <==>
      && KeyReply(cfg, s.seqNo, s.key, s.certificate, data) == Good(session)
      && AcceptableTimeout(session.timeout)
  {
    hide Mac, LeValue, DigitAt, Accepts, RequestKey, SignedBlock, OpenSignature, Mask;
    if cfg.ValidLength(cfg.pr.ivSize + 285, |data|) {
      var l := Peel(cfg, s.key, s.certificate, data);
      SignedBlockIff(cfg.pr.cipher, l.ekey, s.seqNo, l.Seq2(), l.block, session);
    }
  }

  // ----- runs

  datatype Event = Ask(seqNo: nat, key: seq<Octet>) | Answer(data: seq<Octet>, now: nat, seqNo: nat, seqKey: SeqKey)

  ghost predicate Feasible(e: Event)
  {
    e.Ask? ==> |e.key| == KEY_SIZE
  }

  /** Replies keep the invariant; a refused one changes at most the id, and that only for a bad timeout. */
  lemma {:induction false} ReplyKeepsInv(cfg: Config, s: ClientState, data: seq<Octet>, now: nat, seqNo: nat,
      seqKey: SeqKey)
    requires Inv(cfg, s) && Usable(cfg)
    ensures var (t, code) := Reply(cfg, s, data, now, seqNo, seqKey);
            && Inv(cfg, t)
            && (code.Accepted? ==> t.step == code.step && Advances(s.step, t.step))
            && (!code.Accepted? ==> t == s.(id := t.id) && (t == s || code == Refused(BadTimeout)))
  {
    hide CookieReply, KeyReply, CertificateReply, Unscramble;
    if s.step.ReqKey? { SessionKeySize(cfg, s.seqNo, s.key, s.certificate, data); }
  }

  /** One accepted reply takes up one of the replies still possible, and at most one of those still needed. */
  predicate Advances(from: Step, to: Step)
  {
    Rank(to) < Rank(from) && Needed(from) <= 1 + Needed(to)
  }

  /** Accepted replies still possible. */
  function Rank(step: Step): nat
  {
    match step
    case ReqCookie => 3
    case ReqCertificate => 2
    case ReqKey => 1
    case Finished => 0
  }

  ghost function After(cfg: Config, s: ClientState, e: Event): (ClientState, bool)
    requires Inv(cfg, s) && Usable(cfg)
  {
    match e
    case Ask(seqNo, key) => (Request(s, seqNo, key), false)
    case Answer(data, now, seqNo, seqKey) =>
      var (t, code) := Reply(cfg, s, data, now, seqNo, seqKey); (t, code.Accepted?)
  }

  lemma {:induction false} AfterKeepsInv(cfg: Config, s: ClientState, e: Event)
    requires Inv(cfg, s) && Usable(cfg) && Feasible(e)
    ensures var (t, accepted) := After(cfg, s, e);
            Inv(cfg, t) && (if accepted then Advances(s.step, t.step) else t.step == s.step)
  {
    hide Reply;
    match e
    case Ask(_, _) =>
    case Answer(data, now, seqNo, seqKey) => ReplyKeepsInv(cfg, s, data, now, seqNo, seqKey);
  }

  /** The state after a run, and how many replies were accepted. */
  ghost function Run(cfg: Config, s: ClientState, es: seq<Event>): (r: (ClientState, nat))
    requires Inv(cfg, s) && Usable(cfg) && forall e :: e in es ==> Feasible(e)
    decreases es
  {
    if es == [] then (s, 0)
    else
      AfterKeepsInv(cfg, s, es[0]);
      var (t, accepted) := After(cfg, s, es[0]);
      var (u, n) := Run(cfg, t, es[1..]);
      (u, if accepted then n + 1 else n)
  }

  /** Accepted replies still needed. */
  function Needed(step: Step): nat
  {
    match step
    case ReqCookie => 2
    case ReqCertificate => 2
    case ReqKey => 1
    case Finished => 0
  }

  /**
   Over every run: the invariant holds at the end, and the replies accepted lie between what the steps need and
   allow.
   */
  lemma {:induction false} RunKeepsInv(cfg: Config, s: ClientState, es: seq<Event>)
    requires Inv(cfg, s) && Usable(cfg) && forall e :: e in es ==> Feasible(e)
    ensures var (t, n) := Run(cfg, s, es);
            Inv(cfg, t) && n + Rank(t.step) <= Rank(s.step) && Needed(s.step) <= n + Needed(t.step)
    decreases es
  {
    hide After, Inv, Usable;
    if es == [] {
    } else {
      AfterKeepsInv(cfg, s, es[0]);
      RunKeepsInv(cfg, After(cfg, s, es[0]).0, es[1..]);
    }
  }

  /** A run cut at i: the state the i-th event meets. */
  ghost function Before(cfg: Config, s: ClientState, es: seq<Event>, i: nat): (t: ClientState)
    requires Inv(cfg, s) && Usable(cfg) && (forall e :: e in es ==> Feasible(e)) && i <= |es|
    ensures Inv(cfg, t)
  {
    RunKeepsInv(cfg, s, es[..i]);
    Run(cfg, s, es[..i]).0
  }

  /**
   A client that starts at the cookie step accepts at most three replies in its whole life; it is finished
   after two or three, only with a certificate that has the configured hash, and only because one reply of
   the run was genuine for the state it met: that reply's session is the one in use.
   */
  lemma {:induction false} HandshakeRuns(cfg: Config, s: ClientState, es: seq<Event>)
    requires Start(cfg, s) && Usable(cfg) && forall e :: e in es ==> Feasible(e)
    ensures var (t, n) := Run(cfg, s, es);
            && n <= 3
            && (t.step.ReqKey? || t.step.Finished? ==> t.haveCert && cfg.hash(t.certificate) == cfg.pr.certHash)
            && (t.step.Finished? ==> n >= 2)
            && (t.step.Finished? ==>
                  exists i ::
                    && 0 <= i < |es| && es[i].Answer?
                    && FinishedBy(cfg, Before(cfg, s, es, i), es[i].data, es[i].now, t))
  {
    hide Run;
    RunKeepsInv(cfg, s, es);
    if Run(cfg, s, es).0.step.Finished? {
      var i := FinishingEvent(cfg, s, es);
    }
  }

  lemma {:induction false} FinishingEvent(cfg: Config, s: ClientState, es: seq<Event>) returns (i: nat)
    requires Inv(cfg, s) && Usable(cfg) && (forall e :: e in es ==> Feasible(e))
    requires !s.step.Finished? && Run(cfg, s, es).0.step.Finished?
    ensures i < |es| && es[i].Answer?
    ensures FinishedBy(cfg, Before(cfg, s, es, i), es[i].data, es[i].now, Run(cfg, s, es).0)
    decreases es
  {
    hide Genuine, Reply, Usable;
    AfterKeepsInv(cfg, s, es[0]);
    var t := After(cfg, s, es[0]).0;
    if t.step.Finished? {
      i := 0;
      var e := es[0];
      FinishesIff(cfg, s, e.data, e.now, e.seqNo, e.seqKey);
      FinishedStays(cfg, t, es[1..]);
      assert es[..0] == [];
    } else {
      var j := FinishingEvent(cfg, t, es[1..]);
      i := j + 1;
      assert es[..i][1..] == es[1..][..j];
    }
  }

  lemma {:induction false} FinishedStays(cfg: Config, s: ClientState, es: seq<Event>)
    requires Inv(cfg, s) && Usable(cfg) && (forall e :: e in es ==> Feasible(e)) && s.step.Finished?
    ensures Run(cfg, s, es).0 == s
    decreases es
  {
    if es == [] {
    } else {
      FinishedStays(cfg, s, es[1..]);
    }
  }
}
