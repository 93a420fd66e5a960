/** How packet_dispatch splits a request: the host is found, a split point chosen, and the packet cut there. */
module Dispatch {
  import opened Bytes
  import opened HostMatch
  import opened Fragment
  import opened FragmentBuffer

  datatype Where = Partly | AtEnd
  datatype Layer = Network | Transport

  /** The configured split point for a host reported at start .. end. */
  function SplitPoint(where: Where, start: nat, end: nat, packetHash: bv64): nat
    requires start <= end
  {
    if where.Partly? then PartialSplit(start, end, SplitHash(packetHash) as int) else end
  }

  /** The pieces of a packet at the configured layer. */
  function Pieces(layer: Layer, q: seq<Octet>, split: nat): seq<seq<Octet>>
    requires Tcp(q)
  {
    if layer.Network? then IpFragments(q, split) else TcpSegments(q, split)
  }

  /** No pieces are made of a packet without a host; else they are cut at the configured point. */
  method SplitRequest(packet: array<Octet>, extra: Octet, where: Where, layer: Layer, packetHash: bv64,
                      buff: array<Octet>, off: nat)
    returns (found: bool, r: Split, end: nat, start: nat, stop: nat)
    requires packet != buff && packet.Length >= ETH && Tcp(packet[ETH..]) && off + 2 * packet.Length <= buff.Length
    modifies buff
    ensures found <==> exists p :: 0 <= p <= |TcpData(packet[ETH..])| && HostAt(TcpData(packet[ETH..]), extra, p)
    ensures found ==>
      && IsLastHost(TcpData(packet[ETH..]), extra, start) && stop == HostStop(TcpData(packet[ETH..]), extra, start)
      && start <= stop
      && Emitted(r, end, off, buff, packet[..ETH], packet[ETH..],
                 Pieces(layer, packet[ETH..], SplitPoint(where, start, stop, packetHash)))
  {
    hide Tcp, HostAt, IpFragments, TcpSegments, PartialSplit;
    var q := packet[ETH..];
    var data := TcpData(q);
    r, end := Whole, off;
    found, start, stop := UrlMatch(data, extra);
    if !found { return; }
    StopAfterStart(data, extra, start);
    var split := SplitPoint(where, start, stop, packetHash);
    if layer.Network? {
      r, end := IpFragment(packet, split, buff, off);
    } else {
      r, end := TcpFragment(packet, split, buff, off);
    }
    assert packet[ETH..] == q;
  }

  /**
   Cutting at the transport layer in the middle of a host of two or more bytes: neither segment holds the host whole,
   for every packet hash.
   */
  lemma {:induction false} HostIsCut(q: seq<Octet>, extra: Octet, start: nat, packetHash: bv64)
    requires Tcp(q) && IsLastHost(TcpData(q), extra, start) && HostLength(TcpData(q), start) >= 2
    ensures var data, n := TcpData(q), HostLength(TcpData(q), start);
            var stop := HostStop(data, extra, start);
            start <= stop &&
            var split := SplitPoint(Partly, start, stop, packetHash);
            var fs := Pieces(Transport, q, split);
            && start < split < start + n && |fs| == 2
            && Tcp(fs[0]) && TcpData(fs[0]) == data[..split] && Tcp(fs[1]) && TcpData(fs[1]) == data[split..]
  {
    hide Tcp, TcpSegments, PartialSplit;
    StopAfterStart(TcpData(q), extra, start);
    SplitInsideHost(TcpData(q), extra, start, packetHash);
    SegmentsCut(q, SplitPoint(Partly, start, HostStop(TcpData(q), extra, start), packetHash));
  }
}
