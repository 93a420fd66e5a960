/**
 The server's reply buffer. One pointer into it lives as long as the server loop. A CKTP reply is encoded through a copy
 of that pointer, but a handshake reply through the pointer itself, which so moves down with every handshake reply.
 */
module ReplyBuffer {
  import opened Arith
  import opened Bytes
  import opened Buffers
  import opened CryptPacket
  import Pad
  import Stack
  import Transport

  // ----- the tunnel's encodings

  datatype Kind = Crypt(pr: Params) | Padded(p: Pad.Padding)
  {
    ghost predicate Valid()
    {
      match this
      case Crypt(pr) => pr.Valid()
      case Padded(p) => p.Valid()
    }

    function Overhead(): nat
    {
      match this
      case Crypt(pr) => pr.Overhead()
      case Padded(p) => p.Overhead()
    }

    /** Bytes the server puts in front of a reply, given a random length byte. */
    ghost function Header(byte: Octet): (n: nat)
      requires Valid()
      ensures n <= Overhead()
    {
      match this
      case Crypt(pr) => pr.ServerHeader()
      case Padded(p) => p.Header(byte)
    }

    /** Only fixed padding of length 0 adds nothing. */
    predicate AddsNothing()
    {
      this.Padded? && p.fixed && p.size == 0
    }
  }

  lemma {:induction false} AddsNothingIff(k: Kind)
    requires k.Valid()
    ensures k.AddsNothing() <==> forall byte: Octet :: k.Header(byte) == 0
  {
    var zero: Octet := 0;
    assert !k.AddsNothing() ==> k.Header(zero) > 0;
  }

  function Overheads(ks: seq<Kind>): nat
  {
    if ks == [] then 0 else ks[0].Overhead() + Overheads(ks[1..])
  }

  ghost function Headers(ks: seq<Kind>, bytes: seq<Octet>): nat
    requires |ks| == |bytes| && forall k :: k in ks ==> k.Valid()
    decreases ks
  {
    if ks == [] then 0 else ks[0].Header(bytes[0]) + Headers(ks[1..], bytes[1..])
  }

  lemma {:induction false} HeadersBound(ks: seq<Kind>, bytes: seq<Octet>, i: nat)
    requires |ks| == |bytes| && i <= |ks| && forall k :: k in ks ==> k.Valid()
    ensures Headers(ks[..i], bytes[..i]) <= Overheads(ks)
    decreases i
  {
    if i == 0 {
    } else {
      assert ks[..i][1..] == ks[1..][..i - 1] && bytes[..i][1..] == bytes[1..][..i - 1];
      HeadersBound(ks[1..], bytes[1..], i - 1);
    }
  }

  lemma {:induction false} HeadersZero(ks: seq<Kind>, bytes: seq<Octet>)
    requires |ks| == |bytes| && forall k :: k in ks ==> k.Valid() && k.AddsNothing()
    ensures Headers(ks, bytes) == 0
    decreases ks
  {
    if ks == [] {
    } else {
      assert ks[0] in ks;
      AddsNothingIff(ks[0]);
      HeadersZero(ks[1..], bytes[1..]);
    }
  }

  lemma {:induction false} HeadersPositive(ks: seq<Kind>, bytes: seq<Octet>, j: nat)
    requires |ks| == |bytes| && (forall k :: k in ks ==> k.Valid()) && j < |ks| && ks[j].Header(bytes[j]) > 0
    ensures Headers(ks, bytes) > 0
    decreases ks
  {
    if j == 0 {
    } else {
      HeadersPositive(ks[1..], bytes[1..], j - 1);
    }
  }

  datatype Tunnel = Tunnel(kinds: seq<Kind>, ping: bool)
  {
    ghost predicate Valid()
    {
      forall k :: k in kinds ==> k.Valid()
    }

    function Ping(): nat { if ping then Stack.ICMP_HEADER else 0 }

    function Overhead(): nat { Overheads(kinds) + Ping() }

    /** The size of the buffer that the server allocates; its replies start at the overhead. */
    function BufferSize(): nat { Stack.MAX_PACKET + 2 * Overhead() }
  }

  // ----- replies

  /** A handshake reply of some crypt layer, or the reply to a CKTP message; bytes are the layers' length bytes. */
  datatype Reply = Handshake(layer: nat, bytes: seq<Octet>, size: nat) | Message(bytes: seq<Octet>, size: nat)
  {
    ghost predicate Feasible(t: Tunnel)
    {
      && |bytes| == |t.kinds| && 0 < size <= Stack.MAX_PACKET
      && (Handshake? ==> layer < |t.kinds| && t.kinds[layer].Crypt?)
    }

    /**
     How far in front of the pointer the reply starts on the wire: only the layers in front of an answering one
     count.
     */
    ghost function Drop(t: Tunnel): nat
      requires t.Valid() && Feasible(t)
    {
      (if Handshake? then Headers(t.kinds[..layer], bytes[..layer]) else Headers(t.kinds, bytes)) + t.Ping()
    }

    /** Everything written for the reply, with the pointer at `at`, lies in the buffer. */
    ghost predicate Inside(t: Tunnel, at: int)
      requires t.Valid() && Feasible(t)
    {
      0 <= at - Drop(t) && at + size <= t.BufferSize()
    }

    /** Where the pointer is afterwards. */
    ghost function Next(t: Tunnel, at: int): int
      requires t.Valid() && Feasible(t)
    {
      if Handshake? then at - Drop(t) else at
    }
  }

  ghost predicate AllFeasible(t: Tunnel, es: seq<Reply>)
  {
    forall e :: e in es ==> e.Feasible(t)
  }

  /** Every reply of a run is written inside the buffer. */
  ghost predicate StaysInside(t: Tunnel, at: int, es: seq<Reply>)
    requires t.Valid() && AllFeasible(t, es)
    decreases es
  {
    es == [] || (es[0].Inside(t, at) && StaysInside(t, es[0].Next(t, at), es[1..]))
  }

  /** How far a run moves the pointer. */
  ghost function Drift(t: Tunnel, es: seq<Reply>): nat
    requires t.Valid() && AllFeasible(t, es)
    decreases es
  {
    if es == [] then 0 else (if es[0].Handshake? then es[0].Drop(t) else 0) + Drift(t, es[1..])
  }

  lemma {:induction false} DropBound(t: Tunnel, e: Reply)
    requires t.Valid() && e.Feasible(t)
    ensures e.Drop(t) <= t.Overhead()
  {
    if e.Handshake? {
      HeadersBound(t.kinds, e.bytes, e.layer);
    } else {
      HeadersBound(t.kinds, e.bytes, |t.kinds|);
      assert t.kinds[..|t.kinds|] == t.kinds && e.bytes[..|t.kinds|] == e.bytes;
    }
  }

  /**
   The exact bound for every run: it stays inside iff at each reply the drift so far and the reply's own headers do not
   exceed the room that was left at the start.
   */
  lemma {:induction false} StaysInsideIff(t: Tunnel, at: int, es: seq<Reply>)
    requires t.Valid() && AllFeasible(t, es) && at <= t.Overhead()
    ensures StaysInside(t, at, es)
       <==> forall k :: 0 <= k < |es| ==> Drift(t, es[..k]) + es[k].Drop(t) <= at
    decreases es
  {
    hide Reply.Drop, Reply.Feasible;
    if es == [] {
    } else {
      var at' := es[0].Next(t, at);
      StaysInsideIff(t, at', es[1..]);
      assert es[..0] == [] && Drift(t, []) == 0;
      forall k | 0 < k < |es|
        ensures Drift(t, es[..k]) == (at - at') + Drift(t, es[1..][..k - 1]) && es[k] == es[1..][k - 1]
      {
        assert es[..k][1..] == es[1..][..k - 1];
      }
      FitsAbove(t, es[0], at);
    }
  }

  lemma {:induction false} FitsAbove(t: Tunnel, e: Reply, at: int)
    requires t.Valid() && e.Feasible(t) && at <= t.Overhead()
    ensures e.Inside(t, at) <==> e.Drop(t) <= at
  {
    hide Reply.Drop;
  }

  // ----- which tunnels are safe

  /** No handshake reply moves the pointer: no pings, and nothing in front of a crypt layer adds bytes. */
  ghost predicate Steady(t: Tunnel)
  {
    forall i :: 0 <= i < |t.kinds| && t.kinds[i].Crypt? ==>
      !t.ping && forall j :: 0 <= j < i ==> t.kinds[j].AddsNothing()
  }

  lemma {:induction false} SteadyDrift(t: Tunnel, es: seq<Reply>)
    requires t.Valid() && AllFeasible(t, es) && Steady(t)
    ensures Drift(t, es) == 0
    decreases es
  {
    if es == [] {
    } else {
      var e := es[0];
      assert e in es;
      if e.Handshake? { HeadersZero(t.kinds[..e.layer], e.bytes[..e.layer]); }
      SteadyDrift(t, es[1..]);
    }
  }

  /** A tunnel that is not steady has a handshake reply that moves the pointer. */
  lemma {:induction false} MovingReply(t: Tunnel) returns (e: Reply)
    requires t.Valid() && !Steady(t)
    ensures e.Feasible(t) && e.Handshake? && e.Drop(t) > 0
  {
    var i :| 0 <= i < |t.kinds| && t.kinds[i].Crypt?
             && (t.ping || exists j :: 0 <= j < i && !t.kinds[j].AddsNothing());
    var bytes: seq<Octet> := seq(|t.kinds|, _ => 0);
    e := Reply.Handshake(i, bytes, 1);
    if !t.ping {
      var j :| 0 <= j < i && !t.kinds[j].AddsNothing();
      var k := t.kinds[j];
      assert k in t.kinds;
      var zero: Octet := 0;
      assert k.Header(zero) > 0;
      HeadersPositive(t.kinds[..i], bytes[..i], j);
    }
  }

  function Repeat(e: Reply, n: nat): (es: seq<Reply>)
    ensures |es| == n && forall x :: x in es ==> x == e
  {
    seq(n, _ => e)
  }

  lemma {:induction false} RepeatDrift(t: Tunnel, e: Reply, n: nat)
    requires t.Valid() && e.Feasible(t) && e.Handshake?
    ensures Drift(t, Repeat(e, n)) == n * e.Drop(t)
  {
    hide Reply.Drop, Reply.Feasible;
    if n == 0 {
    } else {
      assert Repeat(e, n)[1..] == Repeat(e, n - 1);
      RepeatDrift(t, e, n - 1);
      Distribute(n - 1, e.Drop(t));
    }
  }

  lemma {:induction false} Distribute(n: int, d: int)
    ensures (n + 1) * d == n * d + d
  {
  }

  /**
   n handshake replies that each move the pointer by d stay inside iff n * d does not exceed the tunnel's
   overhead.
   */
  lemma {:induction false} HandshakesThatFit(t: Tunnel, e: Reply, n: nat)
    requires t.Valid() && e.Feasible(t) && e.Handshake?
    ensures StaysInside(t, t.Overhead(), Repeat(e, n)) <==> n * e.Drop(t) <= t.Overhead()
  {
    hide Reply.Drop, Reply.Feasible, StaysInside, Drift;
    var es, d := Repeat(e, n), e.Drop(t);
    StaysInsideIff(t, t.Overhead(), es);
    forall k | 0 <= k < n ensures Drift(t, es[..k]) + es[k].Drop(t) == (k + 1) * d <= n * d {
      assert es[..k] == Repeat(e, k) && es[k] in es;
      RepeatDrift(t, e, k);
      Distribute(k, d);
      MulLe(k + 1, n, d);
    }
    if n > 0 { assert Drift(t, es[..n - 1]) + es[n - 1].Drop(t) == (n - 1 + 1) * d; }
  }

  /** Over all runs every reply is written inside the buffer iff no handshake reply can move the pointer. */
  lemma {:induction false} RepliesStayInsideIff(t: Tunnel)
    requires t.Valid()
    ensures (forall es: seq<Reply> :: AllFeasible(t, es) ==> StaysInside(t, t.Overhead(), es)) <==> Steady(t)
  {
    hide Reply.Drop, Reply.Feasible, StaysInside, Drift;
    if Steady(t) {
      forall es: seq<Reply> | AllFeasible(t, es) ensures StaysInside(t, t.Overhead(), es) {
        forall k | 0 <= k < |es| ensures Drift(t, es[..k]) + es[k].Drop(t) <= t.Overhead() {
          SteadyDrift(t, es[..k]);
          DropBound(t, es[k]);
        }
        StaysInsideIff(t, t.Overhead(), es);
      }
    } else {
      var e := MovingReply(t);
      var n := t.Overhead() + 1;
      MulLe(1, e.Drop(t), n);
      assert AllFeasible(t, Repeat(e, n));
      HandshakesThatFit(t, e, n);
    }
  }

  /** Pings with one crypt layer: every handshake reply moves the pointer by the ping header. */
  lemma {:induction false} PingHandshakes(pr: Params, e: Reply, n: nat)
    requires var t := Tunnel([Crypt(pr)], true); t.Valid() && e.Feasible(t) && e.Handshake?
    ensures var t := Tunnel([Crypt(pr)], true);
            StaysInside(t, t.Overhead(), Repeat(e, n)) <==> 8 * n <= pr.Overhead() + 8
  {
    var t := Tunnel([Crypt(pr)], true);
    assert t.kinds[1..] == [] && Overheads([]) == 0;
    assert t.Overhead() == pr.Overhead() + 8;
    assert e.layer == 0 && e.Drop(t) == 8;
    HandshakesThatFit(t, e, n);
  }

  /**
   The default sizes leave room for three handshake replies, which is what one client needs; the fourth starts at
   -6.
   */
  lemma {:induction false} DefaultPingUnderruns(pr: Params, e: Reply)
    requires pr.idSize == 6 && pr.ivSize == 5 && pr.macSize == 3
    requires e.Feasible(Tunnel([Crypt(pr)], true)) && e.Handshake?
    ensures var t := Tunnel([Crypt(pr)], true);
            && t.Valid() && t.Overhead() == 26 && e.Next(t, 26) == 18 && e.Next(t, 18) == 10 && e.Next(t, 10) == 2
            && e.Next(t, 2) == -6 && StaysInside(t, 26, Repeat(e, 3)) && !StaysInside(t, 26, Repeat(e, 4))
  {
    var t := Tunnel([Crypt(pr)], true);
    assert t.kinds[1..] == [] && Overheads([]) == 0;
    assert e.layer == 0 && e.Drop(t) == 8;
    PingHandshakes(pr, e, 3);
    PingHandshakes(pr, e, 4);
  }

  // ----- the loop's replies in place

  /** The server's side of a layer. */
  predicate ServerLayer(l: Stack.Layer)
  {
    !l.ClientCrypt?
  }

  function KindOf(l: Stack.Layer): Kind
    requires ServerLayer(l)
  {
    if l.ServerCrypt? then Crypt(l.s.pr) else Padded(l.p)
  }

  function Kinds(layers: seq<Stack.Layer>): (ks: seq<Kind>)
    requires forall l :: l in layers ==> ServerLayer(l)
    ensures |ks| == |layers| && forall i :: 0 <= i < |ks| ==> ks[i] == KindOf(layers[i])
  {
    seq(|layers|, i requires 0 <= i < |layers| => KindOf(layers[i]))
  }

  function LengthBytes(draws: seq<Stack.Draw>): (bytes: seq<Octet>)
    ensures |bytes| == |draws| && forall i :: 0 <= i < |bytes| ==> bytes[i] == draws[i].byte
  {
    seq(|draws|, i requires 0 <= i < |draws| => draws[i].byte)
  }

  /** The layers' own headers are those of their kinds. */
  lemma {:induction false} SameHeaders(ss: seq<Stack.Sealing>, ks: seq<Kind>, bytes: seq<Octet>)
    requires |ss| == |ks| == |bytes| && (forall s :: s in ss ==> s.Valid()) && forall k :: k in ks ==> k.Valid()
    requires forall i :: 0 <= i < |ss| ==> ss[i].Header() == ks[i].Header(bytes[i])
    ensures Stack.TotalHeader(ss) == Headers(ks, bytes)
    decreases ss
  {
    hide Kind.Header, Stack.Sealing.Header;
    if ss == [] {
    } else {
      SameHeaders(ss[1..], ks[1..], bytes[1..]);
    }
  }

  lemma {:induction false} LayerHeader(l: Stack.Layer, d: Stack.Draw)
    requires ServerLayer(l) && Stack.SealingOf(l, d).Valid()
    ensures KindOf(l).Valid() && Stack.SealingOf(l, d).Header() == KindOf(l).Header(d.byte)
  {
  }

  lemma {:induction false} LayersHeaders(layers: seq<Stack.Layer>, draws: seq<Stack.Draw>)
    requires |layers| == |draws| && forall l :: l in layers ==> ServerLayer(l)
    requires forall i :: 0 <= i < |layers| ==> Stack.SealingOf(layers[i], draws[i]).Valid()
    ensures forall k :: k in Kinds(layers) ==> k.Valid()
    ensures Stack.TotalHeader(Stack.Sealings(layers, draws)) == Headers(Kinds(layers), LengthBytes(draws))
  {
    hide Kind.Header, Stack.Sealing.Header, Stack.SealingOf, KindOf, Kind.Valid, Stack.Sealing.Valid;
    forall i | 0 <= i < |layers|
      ensures KindOf(layers[i]).Valid()
      ensures Stack.SealingOf(layers[i], draws[i]).Header() == KindOf(layers[i]).Header(draws[i].byte)
    {
      LayerHeader(layers[i], draws[i]);
    }
    SameHeaders(Stack.Sealings(layers, draws), Kinds(layers), LengthBytes(draws));
  }

  /** A reply placed at pos, encoded and given the ping header; the wire packet starts at the returned position. */
  method Emit(layers: seq<Stack.Layer>, draws: seq<Stack.Draw>, ping: bool, id: Transport.Pair, sn: Transport.Pair,
              buf: array<Octet>, pos: nat, answer: seq<Octet>)
    returns (start: nat, wire: seq<Octet>)
    requires |draws| == |layers| && Stack.Separate(layers) && answer != [] && forall l :: l in layers ==> ServerLayer(l)
    requires forall i :: 0 <= i < |layers| ==> Stack.SealingOf(layers[i], draws[i]).Valid()
    requires Stack.TotalHeader(Stack.Sealings(layers, draws)) + (if ping then 8 else 0) <= pos
    requires pos + |answer| <= buf.Length < 0x1_0000
    modifies buf, Stack.AllObjects(layers)
    ensures var ss := old(Stack.Sealings(layers, draws));
            && start == pos - Stack.TotalHeader(ss) - (if ping then 8 else 0)
            && wire == if ping then Transport.Echo(Transport.ECHO_REPLY, id, sn, Stack.SealAll(ss, answer))
                       else Stack.SealAll(ss, answer)
  {
    hide Stack.SealAll, Stack.Sealing.Valid, Stack.SealingOf, Stack.Sealing.Header, Stack.TotalHeader, Stack.Separate,
      Stack.Sealings, Transport.Echo;
    ghost var ss := Stack.Sealings(layers, draws);
    Put(buf, pos, answer);
    assert Stack.Sealings(layers, draws) == ss;
    var _, at, size := Stack.EncodePacket(layers, draws, buf, pos, |answer|);
    if ping {
      at, size := Transport.AddHeader(Transport.ECHO_REPLY, id, sn, buf, at, size);
    }
    start, wire := at, buf[at..at + size];
  }

  class Loop {
    const layers: seq<Stack.Layer>
    const ping: bool
    const buf: array<Octet>
    var reply: int

    ghost function Value(): Tunnel
      requires forall l :: l in layers ==> ServerLayer(l)
    {
      Tunnel(Kinds(layers), ping)
    }

    ghost predicate Valid()
      reads this
    {
      && (forall l :: l in layers ==> ServerLayer(l)) && Stack.Separate(layers) && Value().Valid()
      && reply <= Value().Overhead() && buf.Length == Value().BufferSize() < 0x1_0000
    }

    /** The buffer and the pointer as the loop sets them up. */
    constructor (layers: seq<Stack.Layer>, ping: bool)
      requires (forall l :: l in layers ==> ServerLayer(l)) && Stack.Separate(layers)
      requires var t := Tunnel(Kinds(layers), ping); t.Valid() && t.BufferSize() < 0x1_0000
      ensures Valid() && this.layers == layers && this.ping == ping && reply == Value().Overhead()
    {
      var t := Tunnel(Kinds(layers), ping);
      this.layers, this.ping, reply := layers, ping, t.Overhead();
      buf := new Octet[t.BufferSize()];
    }

    /** The branch for handshake replies of layer i: the loop's own pointer is handed to the encoder. */
    method SendHandshake(i: nat, draws: seq<Stack.Draw>, id: Transport.Pair, sn: Transport.Pair, answer: seq<Octet>)
      returns (wire: seq<Octet>)
      requires Valid() && i < |layers| && |draws| == |layers|
      requires forall j :: 0 <= j < |layers| ==> Stack.SealingOf(layers[j], draws[j]).Valid()
      requires var e := Reply.Handshake(i, LengthBytes(draws), |answer|);
               e.Feasible(Value()) && e.Inside(Value(), reply)
      modifies this, buf, Stack.AllObjects(layers[..i])
      ensures Valid() && reply == Reply.Handshake(i, LengthBytes(draws), |answer|).Next(Value(), old(reply))
      ensures var ss := old(Stack.Sealings(layers[..i], draws[..i]));
              wire == if ping then Transport.Echo(Transport.ECHO_REPLY, id, sn, Stack.SealAll(ss, answer))
                      else Stack.SealAll(ss, answer)
    {
      hide Stack.SealAll, Stack.Sealing.Valid, Stack.SealingOf, Stack.TotalHeader, Stack.Sealings, Transport.Echo,
        Headers;
      LayersHeaders(layers[..i], draws[..i]);
      assert Kinds(layers[..i]) == Kinds(layers)[..i] && LengthBytes(draws[..i]) == LengthBytes(draws)[..i];
      var start;
      start, wire := Emit(layers[..i], draws[..i], ping, id, sn, buf, reply, answer);
      reply := start;
    }

    /** The branch for CKTP messages: a copy of the pointer is handed on. */
    method SendMessage(draws: seq<Stack.Draw>, id: Transport.Pair, sn: Transport.Pair, answer: seq<Octet>)
      returns (wire: seq<Octet>)
      requires Valid() && |draws| == |layers|
      requires forall j :: 0 <= j < |layers| ==> Stack.SealingOf(layers[j], draws[j]).Valid()
      requires var e := Message(LengthBytes(draws), |answer|); e.Feasible(Value()) && e.Inside(Value(), reply)
      modifies buf, Stack.AllObjects(layers)
      ensures reply == Message(LengthBytes(draws), |answer|).Next(Value(), old(reply))
      ensures var ss := old(Stack.Sealings(layers, draws));
              wire == if ping then Transport.Echo(Transport.ECHO_REPLY, id, sn, Stack.SealAll(ss, answer))
                      else Stack.SealAll(ss, answer)
    {
      hide Stack.SealAll, Stack.Sealing.Valid, Stack.SealingOf, Stack.TotalHeader, Stack.Sealings, Transport.Echo,
        Headers;
      LayersHeaders(layers, draws);
      var start;
      start, wire := Emit(layers, draws, ping, id, sn, buf, reply, answer);
    }
  }
}
