/** CKTP messages: the request writer, the server's request loop, and the readers of replies. */
module Cktp {
  import opened Common
  import opened Arith
  import opened Digits
  import opened Bytes
  import opened Buffers
  import opened CryptPacket
  import Crc

  const VERSION: nat := 0
  const TYPE_MESSAGE: nat := 5
  const MAX_REQUESTS: nat := 32
  const MAX_PACKET: nat := 8192
  const REQ_HEADER: nat := 10
  const REP_HEADER: nat := 4

  const NOP: Octet := 0
  const GET_AUTH_ID: Octet := 1
  const GET_FLAGS: Octet := 2
  const GET_IPV4_ADDR: Octet := 3
  const GET_FILTER: Octet := 5

  const OK: Octet := 0
  const NOT_AUTHENTICATED: Octet := 1
  const NOT_SUPPORTED: Octet := 2

  const FLAG_IPV4: nat := 1
  const FLAG_TUNNEL: nat := 4
  const FILTER_NONE: nat := 0
  const FILTER_HTTPDNS_V0: nat := 0x0100

  /** The checksum of everything behind the checksum field. */
  function Check(s: seq<Octet>): (c: nat)
  {
    Crc.Division(s) as nat
  }

  // ----- the server's answers

  /** What a message is answered with. */
  datatype Answer = Done | Value(width: nat, value: nat) | Refused(error: Octet)

  /** What the server knows about a client: the cookie of its address, and the address. */
  datatype Peer = Peer(id: nat, addr: nat)
  {
    ghost predicate Valid()
    {
      id < M32 && addr < M32
    }
  }

  function AnswerTo(auth: bool, m: Octet, p: Peer): Answer
  {
    if m == GET_AUTH_ID then Value(4, p.id)
    else if !auth then Refused(NOT_AUTHENTICATED)
    else if m == NOP then Done
    else if m == GET_FLAGS then Value(4, FLAG_IPV4 + FLAG_TUNNEL)
    else if m == GET_IPV4_ADDR then Value(4, p.addr)
    else if m == GET_FILTER then Value(2, FILTER_HTTPDNS_V0)
    else Refused(NOT_SUPPORTED)
  }

  function Body(a: Answer): seq<Octet>
  {
    match a
    case Done => [OK]
    case Value(width, value) => [OK] + LeBytes(value, width)
    case Refused(error) => [error]
  }

  function Answers(auth: bool, ms: seq<Octet>, p: Peer): (s: seq<Answer>)
    ensures |s| == |ms|
  {
    seq(|ms|, i requires 0 <= i < |ms| => AnswerTo(auth, ms[i], p))
  }

  function Bodies(s: seq<Answer>): seq<Octet>
  {
    if s == [] then [] else Bodies(s[..|s| - 1]) + Body(s[|s| - 1])
  }

  lemma {:induction false} BodiesBound(auth: bool, ms: seq<Octet>, p: Peer)
    ensures |ms| <= |Bodies(Answers(auth, ms, p))| <= 5 * |ms|
    decreases |ms|
  {
    hide Body, AnswerTo;
    if ms == [] {
    } else {
      var n := |ms| - 1;
      assert Answers(auth, ms, p)[..n] == Answers(auth, ms[..n], p);
      BodySize(auth, ms[n], p);
      BodiesBound(auth, ms[..n], p);
    }
  }

  function ReplyPacket(sn: seq<Octet>, bodies: seq<Octet>): seq<Octet>
  {
    LeBytes(Check(sn + bodies), 2) + sn + bodies
  }

  /** What the server makes of a request: nothing, or a reply. */
  function Serve(request: seq<Octet>, p: Peer): Option<seq<Octet>>
  {
    if |request| < REQ_HEADER || request[0] % 16 != VERSION || request[3] > MAX_REQUESTS - 1 then None
    else if LeValue(request[1..3]) != Check(request[3..]) then None
    else if |request| < REQ_HEADER + request[3] + 1 then None else
    var ms := request[REQ_HEADER..REQ_HEADER + request[3] + 1];
    Some(ReplyPacket(request[8..10], Bodies(Answers(LeValue(request[4..8]) == p.id, ms, p))))
  }

  // ----- the request loop

  /** One message: its body is written at pos, which moves behind it. */
  method WriteBody(auth: bool, m: Octet, p: Peer, reply: array<Octet>, pos: nat) returns (pos': nat)
    requires pos + 5 <= reply.Length
    modifies reply
    ensures pos' == pos + |Body(AnswerTo(auth, m, p))| <= reply.Length
    ensures reply[pos..pos'] == Body(AnswerTo(auth, m, p)) && ChangedOnly(reply, pos, pos' - pos)
  {
    hide LeBytes, LeValue, DigitAt;
    var body: seq<Octet>;
    if auth {
      match m {
        case 0 => body := [OK];
        case 1 => body := [OK] + LeBytes(p.id, 4);
        case 2 => body := [OK] + LeBytes(FLAG_IPV4 + FLAG_TUNNEL, 4);
        case 3 => body := [OK] + LeBytes(p.addr, 4);
        case 4 => body := [NOT_SUPPORTED];
        case 5 => body := [OK] + LeBytes(FILTER_HTTPDNS_V0, 2);
        case _ => body := [NOT_SUPPORTED];
      }
    } else if m == GET_AUTH_ID {
      body := [OK] + LeBytes(p.id, 4);
    } else {
      body := [NOT_AUTHENTICATED];
    }
    Put(reply, pos, body);
    pos' := pos + |body|;
  }

  lemma {:induction false} NextBody(auth: bool, ms: seq<Octet>, p: Peer, i: nat)
    requires i < |ms|
    ensures Bodies(Answers(auth, ms[..i + 1], p)) == Bodies(Answers(auth, ms[..i], p)) + Body(AnswerTo(auth, ms[i], p))
  {
    hide Body, AnswerTo;
    assert Answers(auth, ms[..i + 1], p)[..i] == Answers(auth, ms[..i], p);
  }

  /** The loop over the messages, both streams advancing. */
  method WriteBodies(auth: bool, ms: seq<Octet>, p: Peer, reply: array<Octet>) returns (pos: nat)
    requires |ms| <= MAX_REQUESTS && reply.Length >= MAX_PACKET
    modifies reply
    ensures REP_HEADER <= pos <= REP_HEADER + 5 * MAX_REQUESTS
    ensures reply[REP_HEADER..pos] == Bodies(Answers(auth, ms, p)) && ChangedOnly(reply, REP_HEADER, pos - REP_HEADER)
  {
    hide Body, AnswerTo, Bodies, Answers;
    pos := REP_HEADER;
    NoBodies(auth, p);
    var i := 0;
    while i < |ms|
      invariant 0 <= i <= |ms| && REP_HEADER <= pos <= REP_HEADER + 5 * i
      invariant reply[REP_HEADER..pos] == Bodies(Answers(auth, ms[..i], p))
      invariant ChangedOnly(reply, REP_HEADER, pos - REP_HEADER)
    {
      ghost var done := reply[REP_HEADER..pos];
      BodySize(auth, ms[i], p);
      var next := WriteBody(auth, ms[i], p, reply, pos);
      NextBody(auth, ms, p, i);
      assert reply[REP_HEADER..pos] == done;
      assert reply[REP_HEADER..next] == reply[REP_HEADER..pos] + reply[pos..next];
      pos := next;
      i := i + 1;
    }
    assert ms[..i] == ms;
  }

  lemma {:induction false} NoBodies(auth: bool, p: Peer)
    ensures Bodies(Answers(auth, [], p)) == []
  {
  }

  lemma {:induction false} BodySize(auth: bool, m: Octet, p: Peer)
    ensures 1 <= |Body(AnswerTo(auth, m, p))| <= 5
  {
    hide LeBytes;
  }

  /** cktp_request: the reply is built in the buffer, its checksum last. */
  method Request(request: seq<Octet>, p: Peer, reply: array<Octet>) returns (ok: bool, size: nat)
    requires reply.Length >= MAX_PACKET
    modifies reply
    ensures ok <==> Serve(request, p).Some?
    ensures ok ==> size <= REP_HEADER + 5 * MAX_REQUESTS && reply[..size] == Serve(request, p).value
  {
    hide Bodies, Answers, LeBytes, LeValue, Check, Crc.Division;
    ok, size := false, 0;
    if |request| < REQ_HEADER || request[0] % 16 != VERSION || request[3] > MAX_REQUESTS - 1 { return; }
    var check := ChecksumOf(request[3..]);
    if LeValue(request[1..3]) != check { return; }
    var n := REQ_HEADER + request[3] + 1;
    if |request| < n { return; }
    var ms := request[REQ_HEADER..n];
    var auth := LeValue(request[4..8]) == p.id;
    Put(reply, 2, request[8..10]);
    size := WriteBodies(auth, ms, p, reply);
    assert reply[2..4] == request[8..10];
    Finish(reply, size, request[8..10], Bodies(Answers(auth, ms, p)));
    ok := true;
  }

  method ChecksumOf(s: seq<Octet>) returns (c: nat)
    ensures c == Check(s)
  {
    var r := Crc.CalculateChecksum(s);
    c := r as nat;
  }

  method Finish(reply: array<Octet>, size: nat, sn: seq<Octet>, ghost bodies: seq<Octet>)
    requires REP_HEADER <= size <= reply.Length && reply[2..4] == sn && reply[4..size] == bodies
    modifies reply
    ensures reply[..size] == ReplyPacket(sn, bodies)
  {
    hide LeBytes, Check;
    assert reply[2..size] == reply[2..4] + reply[4..size] == sn + bodies;
    var c := ChecksumOf(reply[2..size]);
    ghost var rest := reply[2..size];
    Put(reply, 0, LeBytes(c, 2));
    assert reply[2..size] == rest;
    assert reply[..size] == reply[0..2] + reply[2..size];
    assert LeBytes(c, 2) + (sn + bodies) == LeBytes(c, 2) + sn + bodies;
  }

  // ----- the client's side

  /** A request of the client, its checksum over everything behind the checksum field. */
  function RequestPacket(id: nat, sn: nat, ms: seq<Octet>): seq<Octet>
    requires 1 <= |ms| <= MAX_REQUESTS
  {
    var rest: seq<Octet> := [|ms| - 1] + LeBytes(id, 4) + LeBytes(sn, 2) + ms;
    [16 * TYPE_MESSAGE + VERSION] + LeBytes(Check(rest), 2) + rest
  }

  /** cktp_reply_handler. */
  predicate Acceptable(sn: nat, reply: seq<Octet>)
  {
    |reply| >= REP_HEADER && LeValue(reply[2..4]) == sn && LeValue(reply[..2]) == Check(reply[2..])
  }

  /** The number of value bytes that a successful answer to m carries. */
  function Width(m: Octet): nat
  {
    if m == GET_AUTH_ID || m == GET_FLAGS || m == GET_IPV4_ADDR then 4 else if m == GET_FILTER then 2 else 0
  }

  /** One body read from the stream, as the reply handlers read it; None when the reply is truncated. */
  function ReadBody(m: Octet, s: seq<Octet>): Option<(Answer, seq<Octet>)>
  {
    if |s| < 1 then None
    else if s[0] != OK then Some((Refused(s[0]), s[1..]))
    else if Width(m) == 0 then Some((Done, s[1..]))
    else if |s| < 1 + Width(m) then None
    else Some((Value(Width(m), LeValue(s[1..1 + Width(m)])), s[1 + Width(m)..]))
  }

  /** All bodies of a reply, in the order of the request. */
  function ReadBodies(ms: seq<Octet>, s: seq<Octet>): Option<seq<Answer>>
    decreases ms
  {
    if ms == [] then Some([])
    else
      var r := ReadBody(ms[0], s);
      if r.None? then None
      else
        var t := ReadBodies(ms[1..], r.value.1);
        if t.None? then None else Some([r.value.0] + t.value)
  }

  lemma {:induction false} ValueFits(auth: bool, m: Octet, p: Peer)
    requires p.Valid()
    ensures var a := AnswerTo(auth, m, p);
            && (a.Value? ==> a.width == Width(m) > 0 && LeValue(LeBytes(a.value, a.width)) == a.value)
            && (a.Done? ==> Width(m) == 0) && (a.Refused? ==> a.error != OK)
  {
    hide LeBytes, LeValue, DigitAt;
    SeqNumberRoundTrip(p.id);
    SeqNumberRoundTrip(p.addr);
    SeqNumberRoundTrip(FLAG_IPV4 + FLAG_TUNNEL);
    TwoBytes(FILTER_HTTPDNS_V0);
  }

  lemma {:induction false} TwoBytes(v: nat)
    requires v < 0x10000
    ensures LeValue(LeBytes(v, 2)) == v
  {
    LeRoundTrip(v, 2);
    assert Pow(256, 2) == 0x10000;
  }

  lemma {:induction false} BodyRead(auth: bool, m: Octet, p: Peer, rest: seq<Octet>)
    requires p.Valid()
    ensures ReadBody(m, Body(AnswerTo(auth, m, p)) + rest) == Some((AnswerTo(auth, m, p), rest))
  {
    hide LeBytes, LeValue, AnswerTo;
    ValueFits(auth, m, p);
    var a := AnswerTo(auth, m, p);
    var s := Body(a) + rest;
    assert s[|Body(a)|..] == rest;
    if a.Value? { assert s[1..1 + a.width] == LeBytes(a.value, a.width); }
  }

  lemma {:induction false} FirstBody(s: seq<Answer>)
    requires s != []
    ensures Bodies(s) == Body(s[0]) + Bodies(s[1..])
    decreases |s|
  {
    hide Body;
    var n := |s| - 1;
    var x, z := Body(s[0]), Body(s[n]);
    if n > 0 {
      var mid := Bodies(s[1..n]);
      FirstBody(s[..n]);
      assert s[..n][1..] == s[1..n] && s[1..][..n - 1] == s[1..n];
      assert Bodies(s[1..]) == mid + z;
      assert x + mid + z == x + (mid + z);
    } else {
      assert s[..n] == [] && s[1..] == [];
      assert Bodies([]) == [];
    }
  }

  /** The reader recovers one answer per message, in order. */
  lemma {:induction false} BodiesRead(auth: bool, ms: seq<Octet>, p: Peer)
    requires p.Valid()
    ensures ReadBodies(ms, Bodies(Answers(auth, ms, p))) == Some(Answers(auth, ms, p))
    decreases ms
  {
    hide Body, AnswerTo, Bodies, ReadBody;
    if ms == [] {
    } else {
      var a := Answers(auth, ms, p);
      FirstBody(a);
      assert a[1..] == Answers(auth, ms[1..], p) && a[0] == AnswerTo(auth, ms[0], p);
      assert a == [a[0]] + a[1..];
      BodyRead(auth, ms[0], p, Bodies(a[1..]));
      BodiesRead(auth, ms[1..], p);
    }
  }

  // ----- requests and replies together

  lemma {:induction false} CheckFits(s: seq<Octet>)
    ensures LeValue(LeBytes(Check(s), 2)) == Check(s) < 0x10000
  {
    hide LeBytes, LeValue, Crc.Division;
    TwoBytes(Check(s));
  }

  lemma {:induction false} RequestParts(id: nat, sn: nat, ms: seq<Octet>)
    requires 1 <= |ms| <= MAX_REQUESTS && id < M32 && sn < 0x10000
    ensures var r := RequestPacket(id, sn, ms);
            && |r| == REQ_HEADER + |ms| && r[0] % 16 == VERSION && r[0] / 16 == TYPE_MESSAGE && r[3] == |ms| - 1
            && LeValue(r[1..3]) == Check(r[3..]) && LeValue(r[4..8]) == id && r[8..10] == LeBytes(sn, 2)
            && r[REQ_HEADER..REQ_HEADER + r[3] + 1] == ms
  {
    hide LeBytes, LeValue, Check;
    var rest: seq<Octet> := [|ms| - 1] + LeBytes(id, 4) + LeBytes(sn, 2) + ms;
    var c := LeBytes(Check(rest), 2);
    var r := RequestPacket(id, sn, ms);
    assert r == [16 * TYPE_MESSAGE + VERSION] + c + rest;
    assert r[1..3] == c && r[3..] == rest;
    assert r[4..8] == LeBytes(id, 4) && r[8..10] == LeBytes(sn, 2) && r[REQ_HEADER..] == ms;
    CheckFits(rest);
    SeqNumberRoundTrip(id);
  }

  lemma {:induction false} ReplyAcceptable(sn: nat, bodies: seq<Octet>)
    requires sn < 0x10000
    ensures var r := ReplyPacket(LeBytes(sn, 2), bodies);
            Acceptable(sn, r) && r[REP_HEADER..] == bodies
  {
    hide LeBytes, LeValue, Check;
    var s := LeBytes(sn, 2);
    var r := ReplyPacket(s, bodies);
    assert r[..2] == LeBytes(Check(s + bodies), 2) && r[2..] == s + bodies && r[2..4] == s;
    CheckFits(s + bodies);
    TwoBytes(sn);
  }

  /**
   Every request of 1 to 32 messages is answered, within the buffer; the reply passes the client's check, and its
   reader finds one answer per message, in order. Without the right id only GET_AUTH_ID is answered.
   */
  lemma {:induction false} RequestAnswered(id: nat, sn: nat, ms: seq<Octet>, p: Peer)
    requires 1 <= |ms| <= MAX_REQUESTS && id < M32 && sn < 0x10000 && p.Valid()
    ensures var r := Serve(RequestPacket(id, sn, ms), p);
            && r.Some? && Acceptable(sn, r.value) && |r.value| <= REP_HEADER + 5 * MAX_REQUESTS <= MAX_PACKET
            && ReadBodies(ms, r.value[REP_HEADER..]) == Some(Answers(id == p.id, ms, p))
    ensures id != p.id ==> forall i :: 0 <= i < |ms| && ms[i] != GET_AUTH_ID ==>
                             Answers(id == p.id, ms, p)[i] == Refused(NOT_AUTHENTICATED)
  {
    hide RequestPacket, ReplyPacket, Check, LeValue, LeBytes, ReadBodies, Acceptable, Bodies;
    var a := Answers(id == p.id, ms, p);
    RequestParts(id, sn, ms);
    ReplyAcceptable(sn, Bodies(a));
    BodiesRead(id == p.id, ms, p);
    BodiesBound(id == p.id, ms, p);
    ReplySize(LeBytes(sn, 2), Bodies(a));
  }

  lemma {:induction false} ReplySize(sn: seq<Octet>, bodies: seq<Octet>)
    ensures |ReplyPacket(sn, bodies)| == 2 + |sn| + |bodies|
  {
  }

  // ----- what is refused

  /** Equally long strings that differ, and only within sixteen consecutive bits from bit k on. */
  ghost predicate BurstAt(s: seq<Octet>, t: seq<Octet>, k: nat)
  {
    && |s| == |t| && s != t && k <= 8 * |s|
    && forall i :: 0 <= i < 8 * |s| && !(k <= i < k + 16) ==> Crc.Bits(s)[i] == Crc.Bits(t)[i]
  }

  lemma {:induction false} ThereAndBack(a: bv16)
    ensures (a as nat) as bv16 == a
  {
  }

  lemma {:induction false} DifferentNumbers(a: bv16, b: bv16)
    requires a != b
    ensures a as nat != b as nat
  {
    ThereAndBack(a);
    ThereAndBack(b);
  }

  lemma {:induction false} BurstChangesCheck(s: seq<Octet>, t: seq<Octet>, k: nat)
    requires BurstAt(s, t, k)
    ensures Check(s) != Check(t)
  {
    hide Crc.Division, Crc.Bits;
    Crc.BurstErrorDetected(s, t, k);
    DifferentNumbers(Crc.Division(s), Crc.Division(t));
  }

  /** A request that arrives with up to sixteen consecutive bits changed behind its checksum field is refused. */
  lemma {:induction false} CorruptedRequestRefused(id: nat, sn: nat, ms: seq<Octet>, p: Peer, r: seq<Octet>, k: nat)
    requires 1 <= |ms| <= MAX_REQUESTS && id < M32 && sn < 0x10000
    requires var q := RequestPacket(id, sn, ms);
             |r| == |q| && |q| >= 3 && r[..3] == q[..3] && BurstAt(r[3..], q[3..], k)
    ensures Serve(r, p) == None
  {
    hide RequestPacket, ReplyPacket, Check, LeValue, LeBytes, Bodies, BurstAt;
    var q := RequestPacket(id, sn, ms);
    RequestParts(id, sn, ms);
    BurstChangesCheck(r[3..], q[3..], k);
    assert r[1..3] == r[..3][1..3] == q[..3][1..3] == q[1..3];
  }

  /** So is a reply, by the client. */
  lemma {:induction false} CorruptedReplyRefused(sn: nat, bodies: seq<Octet>, sn': nat, r: seq<Octet>, k: nat)
    requires sn < 0x10000
    requires var q := ReplyPacket(LeBytes(sn, 2), bodies);
             |r| == |q| && |q| >= 2 && r[..2] == q[..2] && BurstAt(r[2..], q[2..], k)
    ensures !Acceptable(sn', r)
  {
    hide ReplyPacket, Check, LeValue, LeBytes, BurstAt;
    var q := ReplyPacket(LeBytes(sn, 2), bodies);
    ReplyAcceptable(sn, bodies);
    BurstChangesCheck(r[2..], q[2..], k);
  }

  /** A reply to another request is refused. */
  lemma {:induction false} ForeignReplyRefused(sn: nat, sn': nat, bodies: seq<Octet>)
    requires sn < 0x10000 && sn != sn'
    ensures !Acceptable(sn', ReplyPacket(LeBytes(sn, 2), bodies))
  {
    hide Check, LeValue, LeBytes;
    ReplyAcceptable(sn, bodies);
  }

  /** Nothing is answered but requests of this version with 1 to 32 whole messages and a right checksum. */
  lemma {:induction false} OnlyRequestsAnswered(r: seq<Octet>, p: Peer)
    requires Serve(r, p).Some?
    ensures |r| >= 11 && r[0] % 16 == 0 && r[3] <= 31 && |r| >= 11 + r[3] && LeValue(r[1..3]) == Check(r[3..])
  {
    hide Check, LeValue, LeBytes, Bodies, ReplyPacket;
  }

  /** The protocol's answers, in the numbers that travel. */
  lemma {:induction false} AnswerTable(p: Peer, m: Octet)
    ensures AnswerTo(true, 0, p) == Done
    ensures AnswerTo(true, 1, p) == AnswerTo(false, 1, p) == Value(4, p.id)
    ensures AnswerTo(true, 2, p) == Value(4, 5) && AnswerTo(true, 3, p) == Value(4, p.addr)
    ensures AnswerTo(true, 5, p) == Value(2, 0x100)
    ensures m == 4 || m > 5 ==> AnswerTo(true, m, p) == Refused(2)
    ensures m != 1 ==> AnswerTo(false, m, p) == Refused(1)
  {
  }
}
