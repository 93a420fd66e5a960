/**
 The encoding stack of a tunnel: layers applied in turn to a packet in a buffer with headroom. The last layer is
 applied first when sending, the first layer is removed first when receiving, and each step is checked.
 */
module Stack {
  import opened Common
  import opened Bytes
  import opened Ctr
  import opened Sequence
  import opened CryptPacket
  import opened CryptLayer
  import Pad

  // ----- layers as values

  /** One layer's encoding of one packet: its parameters and random draws. */
  datatype Sealing =
      ClientSeal(pr: Params, ekey: seq<Octet>, id: nat, sn: nat, iv: Iv)
    | ServerSeal(pr: Params, ekey: seq<Octet>, sn: nat, iv: Iv)
    | PadSeal(p: Pad.Padding, byte: Octet, random: seq<Octet>)
  {
    ghost predicate Valid()
    {
      match this
      case ClientSeal(pr, _, _, sn, iv) => pr.Valid() && |iv| == pr.ivSize && sn < M32
      case ServerSeal(pr, _, sn, iv) => pr.Valid() && |iv| == pr.ivSize && sn < M32
      case PadSeal(p, byte, random) => p.Valid() && p.InString(p.Size(byte)) && p.Size(byte) <= |random|
    }

    ghost function Apply(payload: seq<Octet>): seq<Octet>
      requires Valid()
    {
      match this
      case ClientSeal(pr, ekey, id, sn, iv) => ClientPacket(pr, ekey, id, sn, iv, payload)
      case ServerSeal(pr, ekey, sn, iv) => ServerPacket(pr, ekey, sn, iv, payload)
      case PadSeal(p, byte, random) => p.Seal(byte, random, payload)
    }

    ghost function Header(): nat
      requires Valid()
    {
      match this
      case ClientSeal(pr, _, _, _, _) => pr.ClientHeader()
      case ServerSeal(pr, _, _, _) => pr.ServerHeader()
      case PadSeal(p, byte, _) => p.Header(byte)
    }

    function Overhead(): nat
    {
      match this
      case ClientSeal(pr, _, _, _, _) => pr.Overhead()
      case ServerSeal(pr, _, _, _) => pr.Overhead()
      case PadSeal(p, _, _) => p.Overhead()
    }
  }

  const MAX_PACKET: nat := 8192

  datatype Opened = Packet(data: seq<Octet>) | Answer(reply: seq<Octet>) | Dropped

  /**
   What a server knows about a packet's source: how session keys are re-derived, and what a handshake request is
   answered with, if it is answered at all.
   */
  datatype Source = Source(keyOf: nat -> seq<Octet>, handle: seq<Octet> -> Option<seq<Octet>>)
  {
    /** Replies fit the reply buffer. */
    ghost predicate Bounded()
    {
      forall packet :: handle(packet).Some? ==> |handle(packet).value| <= MAX_PACKET
    }
  }

  /** One layer's decoding. */
  datatype Opening =
      ServerOpening(pr: Params, from: Source)
    | ClientOpening(pr: Params, ekey: seq<Octet>)
    | PadOpening(p: Pad.Padding)
  {
    ghost predicate Valid()
    {
      match this
      case ServerOpening(pr, _) => pr.Valid()
      case ClientOpening(pr, _) => pr.Valid()
      case PadOpening(p) => p.Valid() && (p.fixed ==> p.InString(p.size))
    }

    ghost function Open(packet: seq<Octet>): Opened
      requires Valid()
    {
      match this
      case ServerOpening(pr, from) => FromCrypt(ServerOpen(pr, from.keyOf, packet), from.handle(packet))
      case ClientOpening(pr, ekey) => FromCrypt(ClientOpen(pr, ekey, packet), None)
      case PadOpening(p) => var r := p.Open(packet); if r.Payload? then Packet(r.data) else Dropped
    }

    function Overhead(): nat
    {
      match this
      case ServerOpening(pr, _) => pr.Overhead()
      case ClientOpening(pr, _) => pr.Overhead()
      case PadOpening(p) => p.Overhead()
    }
  }

  /** A handshake request is answered, unless it is refused or the answer is empty. */
  function FromCrypt(o: CryptPacket.Opened, reply: Option<seq<Octet>>): Opened
  {
    match o
    case Payload(_, data) => Packet(data)
    case Handshake(_) => if reply.Some? && reply.value != [] then Answer(reply.value) else Dropped
    case Rejected(_) => Dropped
  }

  /** The two ends of one layer: same parameters, same key, no reserved id, no wrapped pad length. */
  ghost predicate Undoes(o: Opening, s: Sealing)
  {
    match s
    case ClientSeal(pr, ekey, id, _, _) =>
      && o.ServerOpening? && o.pr == pr
      && ekey == pr.cipher.expand(o.from.keyOf(WireId(pr, id))) && WireId(pr, id) > MAX_RESERVED_ID
    case ServerSeal(pr, ekey, _, _) => o == ClientOpening(pr, ekey)
    case PadSeal(p, byte, _) => o == PadOpening(p) && p.Valid() && (p.fixed || p.Size(byte) < 255)
  }

  lemma {:induction false} SealSize(s: Sealing, payload: seq<Octet>)
    requires s.Valid()
    ensures |s.Apply(payload)| == s.Header() + |payload| && s.Header() <= s.Overhead()
  {
  }

  /** One layer: decoding undoes encoding. */
  lemma {:induction false} OpenUndoesSeal(o: Opening, s: Sealing, payload: seq<Octet>)
    requires s.Valid() && o.Valid() && Undoes(o, s) && payload != []
    ensures o.Open(s.Apply(payload)) == Packet(payload)
  {
    hide ClientPacket, ServerPacket, ServerOpen, ClientOpen, Pad.Padding.Open, Pad.Padding.Seal;
    match s
    case ClientSeal(pr, ekey, id, sn, iv) => ServerOpensClientPacket(pr, o.from.keyOf, id, sn, iv, payload);
    case ServerSeal(pr, ekey, sn, iv) => ClientOpensServerPacket(pr, ekey, sn, iv, payload);
    case PadSeal(p, byte, random) => Pad.StripUndoesPad(p, byte, random, payload);
  }

  // ----- whole stacks

  /** The last layer innermost. */
  ghost function SealAll(ss: seq<Sealing>, payload: seq<Octet>): seq<Octet>
    requires forall s :: s in ss ==> s.Valid()
    decreases ss
  {
    if ss == [] then payload else ss[0].Apply(SealAll(ss[1..], payload))
  }

  ghost function OpenAll(os: seq<Opening>, packet: seq<Octet>): Opened
    requires forall o :: o in os ==> o.Valid()
    decreases os
  {
    if os == [] then Packet(packet)
    else
      var r := os[0].Open(packet);
      if r.Packet? then OpenAll(os[1..], r.data) else r
  }

  function TotalOverhead(ss: seq<Sealing>): nat
  {
    if ss == [] then 0 else ss[0].Overhead() + TotalOverhead(ss[1..])
  }

  ghost function TotalHeader(ss: seq<Sealing>): nat
    requires forall s :: s in ss ==> s.Valid()
    decreases ss
  {
    if ss == [] then 0 else ss[0].Header() + TotalHeader(ss[1..])
  }

  /** A packet grows by the headers of its layers, which the declared overheads bound. */
  lemma {:induction false} StackSize(ss: seq<Sealing>, payload: seq<Octet>)
    requires forall s :: s in ss ==> s.Valid()
    ensures |SealAll(ss, payload)| == |payload| + TotalHeader(ss) && TotalHeader(ss) <= TotalOverhead(ss)
    decreases ss
  {
    if ss == [] {
    } else {
      StackSize(ss[1..], payload);
      SealSize(ss[0], SealAll(ss[1..], payload));
    }
  }

  /** Any stack: the receiver recovers exactly the packet that was sent. */
  lemma {:induction false} StackRoundTrip(ss: seq<Sealing>, os: seq<Opening>, payload: seq<Octet>)
    requires |ss| == |os| && payload != [] && (forall s :: s in ss ==> s.Valid()) && (forall o :: o in os ==> o.Valid())
    requires forall i :: 0 <= i < |ss| ==> Undoes(os[i], ss[i])
    ensures OpenAll(os, SealAll(ss, payload)) == Packet(payload)
    decreases ss
  {
    if ss == [] {
    } else {
      StackRoundTrip(ss[1..], os[1..], payload);
      StackSize(ss[1..], payload);
      OpenUndoesSeal(os[0], ss[0], SealAll(ss[1..], payload));
    }
  }

  /** The first layers are the outermost: removing them leaves the packet that the others sealed. */
  lemma {:induction false} PrefixOpens(ss: seq<Sealing>, os: seq<Opening>, payload: seq<Octet>, n: nat)
    requires |os| == n <= |ss| && payload != [] && (forall s :: s in ss ==> s.Valid())
    requires (forall o :: o in os ==> o.Valid())
    requires forall i :: 0 <= i < n ==> Undoes(os[i], ss[i])
    ensures OpenAll(os, SealAll(ss, payload)) == Packet(SealAll(ss[n..], payload))
    decreases n
  {
    if n == 0 {
      assert ss[0..] == ss;
    } else {
      PrefixOpens(ss[1..], os[1..], payload, n - 1);
      assert ss[1..][n - 1..] == ss[n..];
      StackSize(ss[1..], payload);
      OpenUndoesSeal(os[0], ss[0], SealAll(ss[1..], payload));
    }
  }

  // ----- the check after every layer

  datatype Check = Fine | NoPacket | Abort

  /** cktp_encoding_verify on buffer positions; a missing packet is position None. */
  function Verify(overhead: nat, oldPos: nat, newPos: Option<nat>, oldSize: nat, newSize: nat): Check
  {
    if newPos.None? || newSize == 0 then NoPacket
    else if newSize > oldSize && newSize - oldSize > 2 * overhead then Abort
    else if (if newPos.value < oldPos then oldPos - newPos.value else newPos.value - oldPos) > overhead then Abort
    else Fine
  }

  /**
   The check passes iff there is a packet, it grew by at most twice the overhead, and it moved by at most the
   overhead.
   */
  lemma {:induction false} VerifyIff(overhead: nat, oldPos: nat, newPos: nat, oldSize: nat, newSize: nat)
    ensures var r := Verify(overhead, oldPos, Some(newPos), oldSize, newSize);
            && (r == NoPacket <==> newSize == 0)
            && (r == Fine <==> newSize > 0 && newSize <= oldSize + 2 * overhead
                               && oldPos - overhead <= newPos <= oldPos + overhead)
    ensures Verify(overhead, oldPos, None, oldSize, newSize) == NoPacket
  {
  }

  // ----- layers as objects

  datatype Layer = ClientCrypt(c: Client) | ServerCrypt(s: Server) | PadLayer(p: Pad.Padding)
  {
    ghost function Objects(): set<object>
    {
      match this
      case ClientCrypt(c) => {c}
      case ServerCrypt(s) => {s}
      case PadLayer(_) => {}
    }

    function Overhead(): nat
    {
      match this
      case ClientCrypt(c) => c.pr.Overhead()
      case ServerCrypt(s) => s.pr.Overhead()
      case PadLayer(p) => p.Overhead()
    }
  }

  /** The random draws of one layer for one packet. */
  datatype Draw = Draw(iv: Iv, byte: Octet, random: seq<Octet>)

  ghost function SealingOf(l: Layer, d: Draw): Sealing
    reads l.Objects()
  {
    match l
    case ClientCrypt(c) =>
      ClientSeal(c.pr, c.ekey, c.id, if c.seqNo < M32 then Permute(c.seqNo, c.seqKey) else M32, d.iv)
    case ServerCrypt(s) => ServerSeal(s.pr, s.ekey, if s.seqNo < M32 then Permute(s.seqNo, s.seqKey) else M32, d.iv)
    case PadLayer(p) => PadSeal(p, d.byte, d.random)
  }

  ghost function OpeningOf(l: Layer, from: Source): Opening
    reads l.Objects()
  {
    match l
    case ClientCrypt(c) => ClientOpening(c.pr, c.ekey)
    case ServerCrypt(s) => ServerOpening(s.pr, from)
    case PadLayer(p) => PadOpening(p)
  }

  method LayerEncode(l: Layer, d: Draw, buf: array<Octet>, pos: nat, size: nat) returns (pos': nat, size': nat)
    requires SealingOf(l, d).Valid() && SealingOf(l, d).Header() <= pos && pos + size <= buf.Length
    modifies buf, l.Objects()
    ensures var s := old(SealingOf(l, d));
            pos' == pos - s.Header() && size' == size + s.Header()
            && buf[pos'..pos' + size'] == s.Apply(old(buf[pos..pos + size]))
  {
    hide ClientPacket, ServerPacket, Pad.Padding.Seal, Permute;
    SealSize(SealingOf(l, d), []);
    match l
    case ClientCrypt(c) => pos', size' := c.Encode(buf, pos, size, d.iv);
    case ServerCrypt(s) => pos', size' := s.Encode(buf, pos, size, d.iv);
    case PadLayer(p) => pos', size' := Pad.PadEncode(p, buf, pos, size, d.byte, d.random);
  }

  ghost function AllObjects(layers: seq<Layer>): set<object>
  {
    set i, o | 0 <= i < |layers| && o in layers[i].Objects() :: o
  }

  /** What the layers would do to a packet now. */
  ghost function Sealings(layers: seq<Layer>, draws: seq<Draw>): (ss: seq<Sealing>)
    requires |layers| == |draws|
    reads AllObjects(layers)
    ensures |ss| == |layers| && forall i :: 0 <= i < |ss| ==> ss[i] == SealingOf(layers[i], draws[i])
  {
    if layers == [] then []
    else
      var n := |layers| - 1;
      assert forall i :: 0 <= i < n ==> layers[..n][i] == layers[i];
      Sealings(layers[..n], draws[..n]) + [SealingOf(layers[n], draws[n])]
  }

  ghost function Openings(layers: seq<Layer>, froms: seq<Source>): (os: seq<Opening>)
    requires |layers| == |froms|
    reads AllObjects(layers)
    ensures |os| == |layers| && forall i :: 0 <= i < |os| ==> os[i] == OpeningOf(layers[i], froms[i])
  {
    if layers == [] then []
    else
      var n := |layers| - 1;
      assert forall i :: 0 <= i < n ==> layers[..n][i] == layers[i];
      Openings(layers[..n], froms[..n]) + [OpeningOf(layers[n], froms[n])]
  }

  /** Every layer has its own state. */
  ghost predicate Separate(layers: seq<Layer>)
  {
    forall i, j :: 0 <= i < j < |layers| ==> layers[i].Objects() !! layers[j].Objects()
  }

  lemma {:induction false} SuffixHeader(ss: seq<Sealing>, i: nat)
    requires i <= |ss| && forall s :: s in ss ==> s.Valid()
    ensures TotalHeader(ss[i..]) <= TotalHeader(ss)
    ensures i < |ss| ==> TotalHeader(ss[i..]) == ss[i].Header() + TotalHeader(ss[i + 1..])
  {
    if i == 0 {
      assert ss[0..] == ss;
    } else {
      SuffixHeader(ss, i - 1);
    }
    if i < |ss| { assert ss[i..][1..] == ss[i + 1..]; }
  }

  lemma {:induction false} SealStep(ss: seq<Sealing>, i: nat, payload: seq<Octet>)
    requires i < |ss| && forall s :: s in ss ==> s.Valid()
    ensures SealAll(ss[i..], payload) == ss[i].Apply(SealAll(ss[i + 1..], payload))
  {
    assert ss[i..][1..] == ss[i + 1..];
  }

  /**
   cktp_encode_packet: the layers are applied from the last to the first. The pointer drops by exactly the headers of
   the layers, the packet ends where it ended before, and the check after a layer never stops the program.
   */
  method EncodePacket(layers: seq<Layer>, draws: seq<Draw>, buf: array<Octet>, pos: nat, size: nat)
    returns (r: Check, pos': nat, size': nat)
    requires |draws| == |layers| && Separate(layers)
    requires forall i :: 0 <= i < |layers| ==> SealingOf(layers[i], draws[i]).Valid()
    requires TotalHeader(Sealings(layers, draws)) <= pos && pos + size <= buf.Length
    modifies buf, AllObjects(layers)
    ensures r != Abort && (size > 0 ==> r == Fine)
    ensures r == Fine ==>
      var ss := old(Sealings(layers, draws));
      && pos' == pos - TotalHeader(ss) && size' == size + TotalHeader(ss)
      && buf[pos'..pos' + size'] == SealAll(ss, old(buf[pos..pos + size]))
  {
    hide Sealing.Apply, Sealing.Header, SealingOf, SealAll, TotalHeader, Layer.Overhead, Sealing.Overhead,
      Sealing.Valid;
    ghost var ss := Sealings(layers, draws);
    ghost var payload := buf[pos..pos + size];
    pos', size' := pos, size;
    var i := |layers|;
    assert ss[i..] == [];
    EmptyStack(payload);
    while i > 0
      invariant 0 <= i <= |layers|
      invariant pos' == pos - TotalHeader(ss[i..]) && size' == size + TotalHeader(ss[i..])
      invariant forall j :: 0 <= j < i ==> SealingOf(layers[j], draws[j]) == ss[j]
      invariant buf[pos'..pos' + size'] == SealAll(ss[i..], payload)
    {
      i := i - 1;
      SuffixHeader(ss, i);
      SuffixHeader(ss, i + 1);
      SealStep(ss, i, payload);
      var pos0, size0 := pos', size';
      SameOverhead(layers[i], draws[i]);
      SealSize(ss[i], []);
      assert layers[i].Objects() <= AllObjects(layers);
      pos', size' := LayerEncode(layers[i], draws[i], buf, pos0, size0);
      r := Verify(layers[i].Overhead(), pos0, Some(pos'), size0, size');
      if r != Fine { return; }
    }
    assert ss[0..] == ss;
    r := Fine;
  }

  lemma {:induction false} EmptyStack(payload: seq<Octet>)
    ensures SealAll([], payload) == payload && TotalHeader([]) == 0
  {
  }

  lemma {:induction false} SameOverhead(l: Layer, d: Draw)
    ensures SealingOf(l, d).Overhead() == l.Overhead()
  {
  }

  // ----- receiving

  datatype Received = Got(pos: nat, size: nat) | Replying(layer: nat, reply: seq<Octet>) | Dropping | Stopping

  /** What one layer makes of a packet in the buffer. */
  datatype Step = Moved(pos: nat, size: nat) | Answering(reply: seq<Octet>) | Failing

  /** A layer's decoding agrees with its value: where the packet is now, or why there is none. */
  ghost predicate Conforms(r: Step, o: Opened, buf: array<Octet>, pos: nat, size: nat, overhead: nat)
    reads buf
  {
    match o
    case Packet(data) =>
      && r.Moved? && pos <= r.pos <= pos + overhead && r.pos + r.size == pos + size <= buf.Length && r.size > 0
      && buf[r.pos..r.pos + r.size] == data
    case Answer(reply) => r == Answering(reply) && reply != []
    case Dropped => r.Failing? || r == Answering([])
  }

  method LayerDecode(l: Layer, from: Source, buf: array<Octet>, pos: nat, size: nat) returns (r: Step)
    requires OpeningOf(l, from).Valid() && pos + size <= buf.Length && pos < buf.Length && from.Bounded()
    modifies buf, l.Objects()
    ensures Conforms(r, old(OpeningOf(l, from).Open(buf[pos..pos + size])), buf, pos, size, l.Overhead())
    ensures r.Answering? ==> |r.reply| <= MAX_PACKET
  {
    hide ServerOpen, ClientOpen, Pad.Padding.Open;
    match l
    case ClientCrypt(c) =>
      var o := c.Decode(buf, pos, size);
      r := if o.Decoded? then Moved(o.pos, o.size) else Failing;
      ClientNeverHandshakes(c.pr, c.ekey, old(buf[pos..pos + size]));
    case ServerCrypt(s) =>
      var reply := from.handle(buf[pos..pos + size]);
      var o := s.Decode(buf, pos, size, from.keyOf);
      r := match o
        case Decoded(pos', size') => Moved(pos', size')
        case IsHandshake(_) => if reply.Some? then Answering(reply.value) else Failing
        case Failed(_) => Failing;
    case PadLayer(p) =>
      var x, pos', size' := Pad.PadDecode(p, buf, pos, size);
      r := if x.Payload? then Moved(pos', size') else Failing;
  }

  lemma {:induction false} ClientNeverHandshakes(pr: Params, ekey: seq<Octet>, packet: seq<Octet>)
    requires pr.ivSize <= 8
    ensures !ClientOpen(pr, ekey, packet).Handshake?
  {
    hide Mask, Mac, LeValue, LeBytes;
  }

  /** What a whole stack does agrees with its value. */
  ghost predicate Delivers(r: Received, o: Opened, buf: array<Octet>, end: nat)
    reads buf
  {
    match o
    case Packet(data) => r.Got? && r.pos + r.size == end <= buf.Length && buf[r.pos..r.pos + r.size] == data
    case Answer(reply) => r.Replying? && r.reply == reply
    case Dropped => r.Dropping?
  }

  lemma {:induction false} OpenStep(os: seq<Opening>, i: nat, packet: seq<Octet>)
    requires i < |os| && forall o :: o in os ==> o.Valid()
    ensures var r := os[i].Open(packet);
            OpenAll(os[i..], packet) == if r.Packet? then OpenAll(os[i + 1..], r.data) else r
  {
    assert os[i..][1..] == os[i + 1..];
  }

  lemma {:induction false} EmptyOpen(packet: seq<Octet>)
    ensures OpenAll([], packet) == Packet(packet)
  {
  }

  lemma {:induction false} OpeningsValid(layers: seq<Layer>, froms: seq<Source>, os: seq<Opening>)
    requires |froms| == |layers| == |os|
    requires forall i :: 0 <= i < |os| ==> os[i] == OpeningOf(layers[i], froms[i])
    requires forall i :: 0 <= i < |layers| ==> OpeningOf(layers[i], froms[i]).Valid()
    ensures forall o :: o in os ==> o.Valid()
  {
  }

  /**
   cktp_decode_packet: the layers are removed from the first to the last, until one of them answers or drops the
   packet; no check, on the packet or on a reply, stops the program.
   */
  method DecodePacket(layers: seq<Layer>, froms: seq<Source>, buf: array<Octet>, pos: nat, size: nat)
    returns (r: Received)
    requires |froms| == |layers| && Separate(layers)
    requires forall i :: 0 <= i < |layers| ==> OpeningOf(layers[i], froms[i]).Valid() && froms[i].Bounded()
    requires pos + size <= buf.Length && pos < buf.Length
    modifies buf, AllObjects(layers)
    ensures r != Stopping
    ensures Delivers(r, old(OpenAll(Openings(layers, froms), buf[pos..pos + size])), buf, pos + size)
  {
    hide Opening.Open, OpeningOf, OpenAll, Opening.Valid, Layer.Overhead, Source.Bounded;
    ghost var os := Openings(layers, froms);
    OpeningsValid(layers, froms, os);
    ghost var all := OpenAll(os, buf[pos..pos + size]);
    assert os[0..] == os;
    var at: nat, n: nat := pos, size;
    var i := 0;
    while i < |layers|
      invariant 0 <= i <= |layers| && at + n == pos + size && at < buf.Length
      invariant forall j :: i <= j < |layers| ==> OpeningOf(layers[j], froms[j]) == os[j]
      invariant OpenAll(os[i..], buf[at..at + n]) == all
    {
      OpenStep(os, i, buf[at..at + n]);
      assert layers[i].Objects() <= AllObjects(layers);
      var step := LayerDecode(layers[i], froms[i], buf, at, n);
      if step.Failing? { return Dropping; }
      if step.Answering? {
        var check := Verify(layers[i].Overhead(), 0, Some(0), MAX_PACKET, |step.reply|);
        if check == Abort { return Stopping; }
        if check == NoPacket { return Dropping; }
        return Replying(i + 1, step.reply);
      }
      var check := Verify(layers[i].Overhead(), at, Some(step.pos), n, step.size);
      if check == Abort { return Stopping; }
      at, n := step.pos, step.size;
      i := i + 1;
    }
    assert os[i..] == [];
    EmptyOpen(buf[at..at + n]);
    r := Got(at, n);
  }

  // ----- headroom and MTU

  const IP_MSS: nat := 576
  const ICMP_HEADER: nat := 8
  const MAX_IP_HEADER: nat := 60

  datatype Transport = Ip | Udp | Ping

  /** The tunnel's overhead: its layers, and the ICMP header when packets travel as pings. */
  function TunnelOverhead(ss: seq<Sealing>, t: Transport): nat
  {
    TotalOverhead(ss) + if t.Ping? then ICMP_HEADER else 0
  }

  /** cktp_tunnel_get_mtu for IPv4; 0 means that the overhead is too high. */
  function TunnelMtu(t: Transport, overhead: nat, mtu0: nat): nat
  {
    var mtu: int := mtu0 - MAX_IP_HEADER - (if t.Ip? then 0 else 8) - overhead;
    if mtu < IP_MSS then 0 else mtu
  }

  /** Bytes of the carrying IP packet: its header, the transport header and the encoded packet. */
  function WireSize(t: Transport, ipHeader: nat, encoded: nat): nat
  {
    ipHeader + (if t.Ip? then 0 else 8) + encoded
  }

  /**
   The tunnel's MTU bounds exactly the packets, of at least the minimum size, that fit the configured MTU in full
   dress.
   */
  lemma {:induction false} MtuIsLargest(t: Transport, overhead: nat, mtu0: nat, n: nat)
    requires n >= IP_MSS
    ensures n <= TunnelMtu(t, overhead, mtu0) <==> WireSize(t, MAX_IP_HEADER, n + overhead) <= mtu0
  {
  }

  /**
   A packet within the tunnel's MTU never exceeds the configured one on the wire; pings keep 8 bytes in
   reserve, because their header is counted twice.
   */
  lemma {:induction false} WithinMtu(ss: seq<Sealing>, t: Transport, mtu0: nat, payload: seq<Octet>, ipHeader: nat)
    requires (forall s :: s in ss ==> s.Valid()) && ipHeader <= MAX_IP_HEADER
    requires 0 < |payload| <= TunnelMtu(t, TunnelOverhead(ss, t), mtu0)
    ensures WireSize(t, ipHeader, |SealAll(ss, payload)|) + (if t.Ping? then ICMP_HEADER else 0) <= mtu0
  {
    StackSize(ss, payload);
  }
}
