/** The client's connect: two requests, whose replies fill in the tunnel's parameters. */
module CktpConnect {
  import opened Common
  import opened Bytes
  import opened Cktp

  // ----- reading one field

  /** Memory behind a reply, which a load at its end may touch. */
  type Behind = s: seq<Octet> | |s| == 4 witness [0, 0, 0, 0]

  /** What a handler finds at pos: nothing, a refusal, or a value, which is loaded before it is known to be whole. */
  datatype Field = Missing | Refusing | Loaded(value: nat, whole: bool)

  function FieldAt(m: Octet, reply: seq<Octet>, behind: Behind, pos: nat): Field
    requires Width(m) > 0
  {
    if |reply| < pos + 1 then Missing
    else if reply[pos] != OK then Refusing
    else Loaded(LeValue((reply + behind)[pos + 1..pos + 1 + Width(m)]), pos + 1 + Width(m) <= |reply|)
  }

  /** A whole value is the answer that the stream holds; in all other cases there is none, or a refusal. */
  lemma {:induction false} FieldIsAnswer(m: Octet, reply: seq<Octet>, behind: Behind, pos: nat)
    requires Width(m) > 0 && pos <= |reply|
    ensures var f, r := FieldAt(m, reply, behind, pos), ReadBody(m, reply[pos..]);
            && (f.Missing? || (f.Loaded? && !f.whole) <==> r.None?)
            && (f.Refusing? ==> r.Some? && r.value.0.Refused?)
            && (f.Loaded? && f.whole ==> r == Some((Value(Width(m), f.value), reply[pos + 1 + Width(m)..])))
  {
    hide LeValue;
    var s, w := reply[pos..], Width(m);
    if |s| >= 1 + w {
      assert s[1..1 + w] == (reply + behind)[pos + 1..pos + 1 + w] && s[1 + w..] == reply[pos + 1 + w..];
    }
  }

  class Tunnel {
    var authId: nat
    var flags: nat
    var clientAddr: nat
    var filter: nat
    var error: bool

    constructor ()
      ensures !error && authId == 0 && flags == 0 && clientAddr == 0 && filter == 0
    {
      authId, flags, clientAddr, filter, error := 0, 0, 0, 0, false;
    }

    /** cktp_reply_get_auth_handler: false asks for another reply; the id is stored even from a truncated reply. */
    method ReplyGetAuth(sn: nat, reply: seq<Octet>, behind: Behind) returns (ok: bool)
      modifies this
      ensures flags == old(flags) && clientAddr == old(clientAddr) && filter == old(filter)
      ensures ok <==> Acceptable(sn, reply) && ReadBody(GET_AUTH_ID, reply[REP_HEADER..]).Some?
      ensures ok ==>
        var a := ReadBody(GET_AUTH_ID, reply[REP_HEADER..]).value.0;
        if a.Value? then authId == a.value && error == old(error) else authId == old(authId) && error
      ensures !ok ==> error == old(error)
      ensures !Acceptable(sn, reply) ==> authId == old(authId)
      ensures Acceptable(sn, reply) ==>
        var f := FieldAt(GET_AUTH_ID, reply, behind, REP_HEADER);
        authId == if f.Loaded? then f.value else old(authId)
    {
      hide LeValue, Check, ReadBody;
      if !Acceptable(sn, reply) { return false; }
      FieldIsAnswer(GET_AUTH_ID, reply, behind, REP_HEADER);
      match FieldAt(GET_AUTH_ID, reply, behind, REP_HEADER)
      case Missing => ok := false;
      case Refusing => error := true; ok := true;
      case Loaded(v, whole) => authId := v; ok := whole;
    }

    /**
     cktp_reply_get_info_handler: flags, address and filter in turn, up to the first refusal or truncation. Flags and
     address are stored even from a truncated field, the filter only from a whole one.
     */
    method ReplyGetInfo(sn: nat, reply: seq<Octet>, behind: Behind) returns (ok: bool)
      modifies this
      ensures authId == old(authId)
      ensures ok ==> Acceptable(sn, reply)
      ensures !Acceptable(sn, reply) ==>
        flags == old(flags) && clientAddr == old(clientAddr) && filter == old(filter) && error == old(error)
      ensures ok && error == old(error) == false ==>
        ReadBodies([GET_FLAGS, GET_IPV4_ADDR, GET_FILTER], reply[REP_HEADER..])
          == Some([Value(4, flags), Value(4, clientAddr), Value(2, filter)])
      ensures Acceptable(sn, reply) ==>
        var r := ReadBodies([GET_FLAGS, GET_IPV4_ADDR, GET_FILTER], reply[REP_HEADER..]);
        r.Some? && (forall i :: 0 <= i < |r.value| ==> r.value[i].Value?) ==> ok && error == old(error)
      ensures Acceptable(sn, reply) ==>
        var f := FieldAt(GET_FLAGS, reply, behind, REP_HEADER);
        var g := FieldAt(GET_IPV4_ADDR, reply, behind, REP_HEADER + 5);
        var h := FieldAt(GET_FILTER, reply, behind, REP_HEADER + 10);
        var second := f.Loaded? && f.whole;
        var third := second && g.Loaded? && g.whole;
        && flags == (if f.Loaded? then f.value else old(flags))
        && clientAddr == (if second && g.Loaded? then g.value else old(clientAddr))
        && filter == (if third && h.Loaded? && h.whole then h.value else old(filter))
        && error == (old(error) || f.Refusing? || (second && g.Refusing?) || (third && h.Refusing?))
    {
      hide LeValue, Check, ReadBody, ReadBodies, FieldAt;
      if !Acceptable(sn, reply) { return false; }
      ghost var rest := reply[REP_HEADER..];
      ghost var all := ReadBodies([GET_FLAGS, GET_IPV4_ADDR, GET_FILTER], rest);
      ThreeBodies(rest);
      var pos := REP_HEADER;
      FieldIsAnswer(GET_FLAGS, reply, behind, pos);
      var f := FieldAt(GET_FLAGS, reply, behind, pos);
      if f.Missing? { return false; }
      if f.Refusing? { assert all.Some? ==> !all.value[0].Value?; error := true; return true; }
      flags := f.value;
      if !f.whole { return false; }
      pos := pos + 5;
      Enough(GET_FLAGS, reply, behind, REP_HEADER);
      FieldIsAnswer(GET_IPV4_ADDR, reply, behind, pos);
      f := FieldAt(GET_IPV4_ADDR, reply, behind, pos);
      if f.Missing? { return false; }
      if f.Refusing? { assert all.Some? ==> !all.value[1].Value?; error := true; return true; }
      clientAddr := f.value;
      if !f.whole { return false; }
      pos := pos + 5;
      Enough(GET_IPV4_ADDR, reply, behind, REP_HEADER + 5);
      FieldIsAnswer(GET_FILTER, reply, behind, pos);
      f := FieldAt(GET_FILTER, reply, behind, pos);
      if f.Missing? { return false; }
      if f.Refusing? { assert all.Some? ==> !all.value[2].Value?; error := true; return true; }
      if !f.whole { return false; }
      filter := f.value;
      ok := true;
    }

    /** Can the tunnel be used: IPv4 and tunnelling are supported, and the filter lets HTTP and DNS through. */
    method CheckConfiguration() returns (ok: bool)
      ensures ok <==> flags % 2 == 1 && flags / 4 % 2 == 1 && (filter == 0 || filter == 0x100)
    {
      ok := flags % 2 == 1;
      if ok { ok := flags / 4 % 2 == 1; }
      if ok { ok := filter == FILTER_NONE || filter == FILTER_HTTPDNS_V0; }
    }

    /**
     cktp_connect behind the encodings, against a server that answers every request; true when the tunnel can be
     used.
     */
    method Connect(p: Peer, randomId: nat, sn1: nat, sn2: nat) returns (ok: bool)
      requires p.Valid() && randomId < M32 && sn1 < M16 && sn2 < M16 && !error
      modifies this
      ensures ok && !error
      ensures authId == p.id && flags == FLAG_IPV4 + FLAG_TUNNEL && clientAddr == p.addr && filter == FILTER_HTTPDNS_V0
    {
      hide LeValue, Check, LeBytes, ReadBody, RequestPacket, Serve, Acceptable, FieldAt;
      var buffer := new Octet[MAX_PACKET];
      var request := RequestPacket(randomId, sn1, [GET_AUTH_ID]);
      RequestAnswered(randomId, sn1, [GET_AUTH_ID], p);
      var served, size := Request(request, p, buffer);
      AtLeastHeader(sn1, buffer[..size]);
      AuthAnswer(randomId == p.id, p);
      OneBody(buffer[..size][REP_HEADER..]);
      ok := ReplyGetAuth(sn1, buffer[..size], [0, 0, 0, 0]);
      assert ok && authId == p.id && !error;

      var ms := [GET_FLAGS, GET_IPV4_ADDR, GET_FILTER];
      request := RequestPacket(authId, sn2, ms);
      RequestAnswered(p.id, sn2, ms, p);
      InfoAnswers(p);
      served, size := Request(request, p, buffer);
      ok := ReplyGetInfo(sn2, buffer[..size], [0, 0, 0, 0]);
      assert ok && !error;
      ok := CheckConfiguration();
    }
  }

  lemma {:induction false} AtLeastHeader(sn: nat, reply: seq<Octet>)
    requires Acceptable(sn, reply)
    ensures |reply| >= REP_HEADER
  {
  }

  lemma {:induction false} AuthAnswer(auth: bool, p: Peer)
    ensures Answers(auth, [GET_AUTH_ID], p) == [Value(4, p.id)]
  {
  }

  lemma {:induction false} InfoAnswers(p: Peer)
    ensures Answers(true, [GET_FLAGS, GET_IPV4_ADDR, GET_FILTER], p)
         == [Value(4, FLAG_IPV4 + FLAG_TUNNEL), Value(4, p.addr), Value(2, FILTER_HTTPDNS_V0)]
  {
  }

  lemma {:induction false} OneBody(s: seq<Octet>)
    ensures var r := ReadBody(GET_AUTH_ID, s);
            ReadBodies([GET_AUTH_ID], s) == if r.None? then None else Some([r.value.0])
  {
    hide ReadBody, ReadBodies;
    ReadFirst(GET_AUTH_ID, [], s);
    var r := ReadBody(GET_AUTH_ID, s);
    if r.Some? {
      ReadNone(r.value.1);
      assert [r.value.0] + [] == [r.value.0];
    }
    assert [GET_AUTH_ID] + [] == [GET_AUTH_ID];
  }

  lemma {:induction false} ReadNone(s: seq<Octet>)
    ensures ReadBodies([], s) == Some([])
  {
  }

  lemma {:induction false} ReadFirst(m: Octet, ms: seq<Octet>, s: seq<Octet>)
    ensures var r := ReadBody(m, s);
            && (r.None? ==> ReadBodies([m] + ms, s) == None)
            && (r.Some? ==>
                  var t := ReadBodies(ms, r.value.1);
                  ReadBodies([m] + ms, s) == if t.None? then None else Some([r.value.0] + t.value))
  {
    hide ReadBody;
    assert ([m] + ms)[1..] == ms;
  }

  lemma {:induction false} Enough(m: Octet, reply: seq<Octet>, behind: Behind, pos: nat)
    requires Width(m) > 0 && FieldAt(m, reply, behind, pos).Loaded? && FieldAt(m, reply, behind, pos).whole
    ensures pos + 1 + Width(m) <= |reply|
  {
  }

  lemma {:induction false} ThreeBodies(s: seq<Octet>)
    ensures var all := ReadBodies([GET_FLAGS, GET_IPV4_ADDR, GET_FILTER], s);
            var a := ReadBody(GET_FLAGS, s);
            a.None? ==> all == None
    ensures var all := ReadBodies([GET_FLAGS, GET_IPV4_ADDR, GET_FILTER], s);
            var a := ReadBody(GET_FLAGS, s);
            a.Some? ==>
              var b := ReadBody(GET_IPV4_ADDR, a.value.1);
              && (b.None? ==> all == None)
              && (b.Some? ==>
                    var c := ReadBody(GET_FILTER, b.value.1);
                    all == if c.None? then None else Some([a.value.0, b.value.0, c.value.0]))
  {
    hide ReadBody, ReadBodies;
    var y: seq<Octet>, z: seq<Octet> := [GET_IPV4_ADDR, GET_FILTER], [GET_FILTER];
    assert [GET_FLAGS] + y == [GET_FLAGS, GET_IPV4_ADDR, GET_FILTER];
    assert [GET_IPV4_ADDR] + z == y && [GET_FILTER] + [] == z;
    ReadFirst(GET_FLAGS, y, s);
    var a := ReadBody(GET_FLAGS, s);
    if a.Some? {
      ReadFirst(GET_IPV4_ADDR, z, a.value.1);
      var b := ReadBody(GET_IPV4_ADDR, a.value.1);
      if b.Some? {
        ReadFirst(GET_FILTER, [], b.value.1);
        var c := ReadBody(GET_FILTER, b.value.1);
        if c.Some? {
          ReadNone(c.value.1);
          assert [c.value.0] + [] == [c.value.0];
          assert [a.value.0] + ([b.value.0] + [c.value.0]) == [a.value.0, b.value.0, c.value.0];
        }
      }
    }
  }
}
