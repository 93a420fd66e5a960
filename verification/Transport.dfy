/** Tunnels over pings: the ICMP header in front of an encoded packet, and a packet's way through the headroom. */
module Transport {
  import opened Common
  import opened Bytes
  import opened Buffers
  import opened Checksum
  import opened Fragment
  import FragmentBuffer
  import Stack

  const ICMP_HEADER: nat := Stack.ICMP_HEADER
  const ECHO: Octet := 8
  const ECHO_REPLY: Octet := 0

  /** Two bytes as they stand in the header. */
  type Pair = s: seq<Octet> | |s| == 2 witness [0, 0]

  /** An echo packet with a valid checksum. */
  function Echo(kind: Octet, id: Pair, sn: Pair, payload: seq<Octet>): (r: seq<Octet>)
    ensures |r| == ICMP_HEADER + |payload| && r[0] == kind && r[1] == 0
    ensures r[4..6] == id && r[6..8] == sn && r[8..] == payload
  {
    var z := [kind, 0, 0, 0] + id + sn + payload;
    var r := Store(z, 2, HostChecksum([], z));
    assert r[4..6] == z[4..6] == id && r[6..8] == z[6..8] == sn && r[8..] == z[8..] == payload;
    r
  }

  lemma {:induction false} EchoChecked(kind: Octet, id: Pair, sn: Pair, payload: seq<Octet>)
    ensures HostChecksum([], Echo(kind, id, sn, payload)) == 0
  {
    hide HostChecksum;
    RecheckIsZero([], [kind, 0, 0, 0] + id + sn + payload, 2);
  }

  datatype Stripped = Payload(data: seq<Octet>, id: Pair, sn: Pair) | Foreign

  /** What both receivers read of a ping below an IP header. */
  function Strip(kind: Octet, packet: seq<Octet>): Stripped
  {
    if |packet| < 20 + ICMP_HEADER || packet[0] % 16 < 5 then Foreign else
    var h := packet[0] % 16 * 4;
    if |packet| < h + ICMP_HEADER || packet[h] != kind || packet[h + 1] != 0 then Foreign
    else Payload(packet[h + ICMP_HEADER..], packet[h + 4..h + 6], packet[h + 6..h + 8])
  }

  /** The server takes echo requests to its port. */
  function ServerStrip(port: Pair, packet: seq<Octet>): Stripped
  {
    var r := Strip(ECHO, packet);
    if r.Payload? && r.id == port then r else Foreign
  }

  /** The client takes non-empty replies to the echo request it sent last. */
  function ClientStrip(port: Pair, sn: Pair, packet: seq<Octet>): Stripped
  {
    var r := Strip(ECHO_REPLY, packet);
    if r.Payload? && r.id == port && r.sn == sn && r.data != [] then r else Foreign
  }

  lemma {:induction false} StripEcho(ip: seq<Octet>, kind: Octet, id: Pair, sn: Pair, payload: seq<Octet>)
    requires |ip| >= 20 && ip[0] % 16 * 4 == |ip|
    ensures Strip(kind, ip + Echo(kind, id, sn, payload)) == Payload(payload, id, sn)
  {
    hide Echo;
    var h, e := |ip|, Echo(kind, id, sn, payload);
    var p := ip + e;
    assert p[h] == e[0] && p[h + 1] == e[1];
    assert p[h + 4..h + 6] == e[4..6] && p[h + 6..h + 8] == e[6..8] && p[h + 8..] == e[8..];
  }

  /**
   A ping and its answer: the server gets the payload, and its reply with the same id and number reaches the
   client.
   */
  lemma {:induction false} PingRoundTrip(ip: seq<Octet>, ip': seq<Octet>, port: Pair, sn: Pair,
      payload: seq<Octet>, reply: seq<Octet>)
    requires |ip| >= 20 && ip[0] % 16 * 4 == |ip| && |ip'| >= 20 && ip'[0] % 16 * 4 == |ip'| && reply != []
    ensures var r := ServerStrip(port, ip + Echo(ECHO, port, sn, payload));
            && r == Payload(payload, port, sn)
            && ClientStrip(port, sn, ip' + Echo(ECHO_REPLY, r.id, r.sn, reply)) == Payload(reply, port, sn)
  {
    hide Strip, Echo;
    StripEcho(ip, ECHO, port, sn, payload);
    StripEcho(ip', ECHO_REPLY, port, sn, reply);
  }

  /** Only echo packets of the kind come through, with the id and number that stand in them. */
  lemma {:induction false} StripsOnlyEchoes(kind: Octet, packet: seq<Octet>, d: seq<Octet>, id: Pair, sn: Pair)
    requires Strip(kind, packet) == Payload(d, id, sn)
    ensures exists ip: seq<Octet>, check: Pair ::
      |ip| >= 20 && ip[0] % 16 * 4 == |ip| && packet == ip + [kind, 0] + check + id + sn + d
  {
    var h := packet[0] % 16 * 4;
    var ip, check := packet[..h], packet[h + 2..h + 4];
    assert packet == ip + [kind, 0] + check + id + sn + d;
  }

  /** The server takes nothing that is for another port, the client nothing that answers another request. */
  lemma {:induction false} ForeignEchoRefused(ip: seq<Octet>, id: Pair, sn: Pair, payload: seq<Octet>, port: Pair,
      mine: Pair)
    requires |ip| >= 20 && ip[0] % 16 * 4 == |ip|
    ensures id != port ==> ServerStrip(port, ip + Echo(ECHO, id, sn, payload)) == Foreign
    ensures ServerStrip(port, ip + Echo(ECHO_REPLY, id, sn, payload)) == Foreign
    ensures id != port || sn != mine ==> ClientStrip(port, mine, ip + Echo(ECHO_REPLY, id, sn, payload)) == Foreign
    ensures ClientStrip(port, mine, ip + Echo(ECHO, id, sn, payload)) == Foreign
  {
    hide Echo;
    StripEcho(ip, ECHO, id, sn, payload);
    StripEcho(ip, ECHO_REPLY, id, sn, payload);
    OtherKind(ip, ECHO, ECHO_REPLY, id, sn, payload);
    OtherKind(ip, ECHO_REPLY, ECHO, id, sn, payload);
  }

  lemma {:induction false} OtherKind(ip: seq<Octet>, kind: Octet, other: Octet, id: Pair, sn: Pair, payload: seq<Octet>)
    requires |ip| >= 20 && ip[0] % 16 * 4 == |ip| && kind != other
    ensures Strip(other, ip + Echo(kind, id, sn, payload)) == Foreign
  {
    hide Echo;
    var e := Echo(kind, id, sn, payload);
    assert (ip + e)[|ip|] == e[0];
  }

  /** cktp_add_transport_header for pings. */
  method AddHeader(kind: Octet, id: Pair, sn: Pair, buf: array<Octet>, pos: nat, size: nat) returns (pos': nat,
      size': nat)
    requires ICMP_HEADER <= pos && pos + size <= buf.Length && size < 0x10000
    modifies buf
    ensures pos' == pos - ICMP_HEADER && size' == size + ICMP_HEADER
    ensures buf[pos'..pos' + size'] == Echo(kind, id, sn, old(buf[pos..pos + size]))
    ensures ChangedOnly(buf, pos', ICMP_HEADER)
  {
    hide HostChecksum;
    ghost var payload := buf[pos..pos + size];
    pos', size' := pos - ICMP_HEADER, size + ICMP_HEADER;
    Put(buf, pos', [kind, 0, 0, 0] + id + sn);
    assert buf[pos..pos + size] == payload;
    assert buf[pos'..pos] == [kind, 0, 0, 0] + id + sn;
    ghost var z := [kind, 0, 0, 0] + id + sn + payload;
    assert buf[pos'..pos' + size'] == buf[pos'..pos] + buf[pos..pos + size] == z;
    var c := Compute([], buf[pos'..pos' + size']);
    buf[pos' + 2], buf[pos' + 3] := c % 256, c / 256;
    assert buf[pos'..pos' + size'] == Store(z, 2, c);
  }

  // ----- a packet's way through a tunnel

  function TotalOf(layers: seq<Stack.Layer>): nat
  {
    if layers == [] then 0 else layers[0].Overhead() + TotalOf(layers[1..])
  }

  lemma {:induction false} SameTotal(layers: seq<Stack.Layer>, ss: seq<Stack.Sealing>)
    requires |layers| == |ss| && forall i :: 0 <= i < |ss| ==> ss[i].Overhead() == layers[i].Overhead()
    ensures TotalOf(layers) == Stack.TotalOverhead(ss)
    decreases layers
  {
    if layers == [] {
    } else {
      SameTotal(layers[1..], ss[1..]);
    }
  }

  /** What a tunnelled packet becomes on the wire, unless it is too big before or after encoding. */
  ghost function Tunnelled(ss: seq<Stack.Sealing>, ping: bool, id: Pair, sn: Pair, addr: seq<Octet>,
      packet: seq<Octet>):
      Option<seq<Octet>>
    requires (forall s :: s in ss ==> s.Valid()) && Sendable(packet, addr)
  {
    var sealed := Stack.SealAll(ss, Readdress(packet, addr));
    if |packet| > Stack.MAX_PACKET || |sealed| > Stack.MAX_PACKET then None
    else Some(if ping then Echo(ECHO, id, sn, sealed) else sealed)
  }

  /** An IPv4 packet; one with a foreign source address must be TCP or UDP, or the program stops. */
  predicate Sendable(packet: seq<Octet>, addr: seq<Octet>)
  {
    |addr| == 4 && Ip(packet) && (packet[12..16] != addr ==> Forwardable(packet))
  }

  /**
   cktp_tunnel_packet: the packet is copied behind the tunnel's headroom, gets the tunnel's source address, is encoded
   by every layer, and gets the ping header if there is one. Every write stays inside a buffer of the packet's size
   plus twice the overhead.
   */
  method Send(layers: seq<Stack.Layer>, draws: seq<Stack.Draw>, ping: bool, id: Pair, sn: Pair, addr: seq<Octet>,
              packet: seq<Octet>)
    returns (wire: Option<seq<Octet>>)
    requires |draws| == |layers| && Stack.Separate(layers) && Sendable(packet, addr)
    requires forall i :: 0 <= i < |layers| ==> Stack.SealingOf(layers[i], draws[i]).Valid()
    modifies Stack.AllObjects(layers)
    ensures wire == Tunnelled(old(Stack.Sealings(layers, draws)), ping, id, sn, addr, packet)
  {
    hide Stack.SealAll, Stack.Sealing.Valid, Stack.SealingOf, Stack.Sealing.Overhead, Stack.Layer.Overhead, Echo,
      TotalOf,
      Stack.TotalOverhead, Stack.TotalHeader, Stack.Separate, Stack.Sealings, Readdress;
    if |packet| > Stack.MAX_PACKET { return None; }
    ghost var ss := Stack.Sealings(layers, draws);
    Overheads(layers, draws, ss);
    Stack.StackSize(ss, Readdress(packet, addr));
    var overhead := TotalOf(layers) + if ping then ICMP_HEADER else 0;
    var buf := Prepare(packet, overhead, addr);
    assert Stack.Sealings(layers, draws) == ss;
    var _, pos, size := Stack.EncodePacket(layers, draws, buf, overhead, |packet|);
    if size > Stack.MAX_PACKET { return None; }
    if ping {
      pos, size := AddHeader(ECHO, id, sn, buf, pos, size);
    }
    wire := Some(buf[pos..pos + size]);
  }

  /**
   What arrives: a packet is dropped iff it is too big before or behind its headers; else the other end's layers give it
   back under the tunnel's source address.
   */
  lemma {:induction false} SentPacketArrives(ss: seq<Stack.Sealing>, os: seq<Stack.Opening>, ping: bool, id: Pair,
      sn: Pair,
      addr: seq<Octet>, packet: seq<Octet>)
    requires |ss| == |os| && (forall s :: s in ss ==> s.Valid()) && (forall o :: o in os ==> o.Valid())
    requires (forall i :: 0 <= i < |ss| ==> Stack.Undoes(os[i], ss[i])) && Sendable(packet, addr)
    ensures var w, k := Tunnelled(ss, ping, id, sn, addr, packet), HeaderLen(packet) + ChecksumField(packet);
            && (w.None? <==> |packet| + Stack.TotalHeader(ss) > 8192)
            && (w.Some? ==>
                  && (ping ==> |w.value| >= 8)
                  && var r := Stack.OpenAll(os, if ping then w.value[8..] else w.value);
                     && r.Packet? && |r.data| == |packet| && r.data[12..16] == addr
                     && forall i :: 0 <= i < |packet| && !(10 <= i < 16) && i != k && i != k + 1 ==>
                          r.data[i] == packet[i])
  {
    hide Stack.SealAll, Stack.OpenAll, Readdress, Echo, Stack.TotalHeader;
    Stack.StackSize(ss, Readdress(packet, addr));
    Stack.StackRoundTrip(ss, os, Readdress(packet, addr));
    ReaddressFacts(packet, addr);
  }

  /** A copy of the packet with headroom on both sides, under the tunnel's source address. */
  method Prepare(packet: seq<Octet>, overhead: nat, addr: seq<Octet>) returns (buf: array<Octet>)
    requires Sendable(packet, addr)
    ensures fresh(buf) && buf.Length == |packet| + 2 * overhead
    ensures buf[overhead..overhead + |packet|] == Readdress(packet, addr)
  {
    hide Readdress;
    buf := new Octet[|packet| + 2 * overhead];
    Put(buf, overhead, packet);
    FragmentBuffer.ReaddressAt(buf, overhead, |packet|, addr, packet);
  }

  lemma {:induction false} Overheads(layers: seq<Stack.Layer>, draws: seq<Stack.Draw>, ss: seq<Stack.Sealing>)
    requires |draws| == |layers| == |ss| && forall i :: 0 <= i < |ss| ==> ss[i] == Stack.SealingOf(layers[i], draws[i])
    ensures TotalOf(layers) == Stack.TotalOverhead(ss)
  {
    forall i | 0 <= i < |ss| ensures ss[i].Overhead() == layers[i].Overhead() {
      Stack.SameOverhead(layers[i], draws[i]);
    }
    SameTotal(layers, ss);
  }
}
