/** Splitting as the program does it: copies into a buffer, header fields overwritten in place. */
module FragmentBuffer {
  import opened Common
  import opened Bytes
  import opened Buffers
  import opened Checksum
  import opened Fragment

  const ETH: nat := 14

  /** Where the fragments are: the packet itself, or two positions in the buffer. */
  datatype Split = Whole | Two(first: nat, second: nat)

  /** A 16-bit field in network order, at offset k of the n bytes at `at`. */
  method SetBe16(buff: array<Octet>, at: nat, n: nat, k: nat, v: U16)
    requires k + 1 < n && at + n <= buff.Length
    modifies buff
    ensures buff[at..at + n] == PutBe16(old(buff[at..at + n]), k, v)
    ensures ChangedOnly(buff, at, n)
  {
    buff[at + k], buff[at + k + 1] := v / 256, v % 256;
    assert buff[at..at + n] == PutBe16(old(buff[at..at + n]), k, v);
  }

  /** A 16-bit checksum stored in host order. */
  method StoreAt(buff: array<Octet>, at: nat, n: nat, k: nat, r: U16)
    requires k + 1 < n && at + n <= buff.Length
    modifies buff
    ensures buff[at..at + n] == Store(old(buff[at..at + n]), k, r)
    ensures ChangedOnly(buff, at, n)
  {
    buff[at + k], buff[at + k + 1] := r % 256, r / 256;
    assert buff[at..at + n] == Store(old(buff[at..at + n]), k, r);
  }

  /** The IP checksum is zeroed, computed and stored in place. */
  method SealIpAt(buff: array<Octet>, at: nat, n: nat)
    requires at + n <= buff.Length && Ip(buff[at..at + n])
    modifies buff
    ensures buff[at..at + n] == SealIp(old(buff[at..at + n]))
    ensures ChangedOnly(buff, at, n)
  {
    hide HostChecksum;
    StoreAt(buff, at, n, 10, 0);
    ghost var z := buff[at..at + n];
    var h := buff[at] % 16 * 4;
    assert z[0] == buff[at];
    SubSlice(buff[..], at, at + n, 0, h);
    var c := Compute([], buff[at..at + h]);
    StoreAt(buff, at, n, 10, c);
  }

  /** tcp_checksum of the n bytes at `at`. */
  method TcpChecksumAt(buff: array<Octet>, at: nat, n: nat, ghost z: seq<Octet>) returns (c: U16)
    requires at + n <= buff.Length && z == buff[at..at + n] && Ip(z)
    ensures c == HostChecksum(Pseudo(z), IpData(z))
  {
    hide HostChecksum;
    assert z[0] == buff[at];
    var t := buff[at] % 16 * 4;
    var size: int := n - t;
    var pseudo: seq<Octet> := buff[at + 12..at + 20] + [0, 6, size / 256, size % 256];
    SubSlice(buff[..], at, at + n, 12, 20);
    SubSlice(buff[..], at, at + n, t, n);
    assert pseudo == Pseudo(z);
    c := Compute(pseudo, buff[at + t..at + n]);
  }

  /** The two steps of sealing, apart. */
  lemma {:induction false} ZeroedTransport(q: seq<Octet>, k: nat)
    requires Ip(q) && HeaderLen(q) + k + 1 < |q|
    ensures var t := HeaderLen(q);
            var z := Store(q, t + k, 0);
            Ip(z) && HeaderLen(z) == t && SealTransport(q, k) == Store(z, t + k, HostChecksum(Pseudo(z), IpData(z)))
  {
    hide HostChecksum;
  }

  method StoreTransportChecksum(buff: array<Octet>, at: nat, n: nat, field: nat, ghost z: seq<Octet>)
    requires at + n <= buff.Length && buff[at..at + n] == z && Ip(z) && field + 1 < n
    modifies buff
    ensures buff[at..at + n] == Store(z, field, HostChecksum(Pseudo(z), IpData(z)))
    ensures ChangedOnly(buff, at, n)
  {
    hide HostChecksum, Pseudo, IpData, Ip;
    var c := TcpChecksumAt(buff, at, n, z);
    StoreAt(buff, at, n, field, c);
  }

  /** The checksum field k bytes into the IP payload is zeroed, computed and stored. */
  method SealTransportAt(buff: array<Octet>, at: nat, n: nat, k: nat)
    requires at + n <= buff.Length && Ip(buff[at..at + n]) && HeaderLen(buff[at..at + n]) + k + 1 < n
    modifies buff
    ensures buff[at..at + n] == SealTransport(old(buff[at..at + n]), k)
    ensures ChangedOnly(buff, at, n)
  {
    hide HostChecksum, SealTransport, Pseudo, IpData, Ip;
    ghost var q := buff[at..at + n];
    assert q[0] == buff[at];
    var t := buff[at] % 16 * 4;
    ZeroedTransport(q, k);
    StoreAt(buff, at, n, t + k, 0);
    StoreTransportChecksum(buff, at, n, t + k, Store(q, t + k, 0));
  }

  /** The TCP checksum is zeroed, computed and stored in place. */
  method SealTcpAt(buff: array<Octet>, at: nat, n: nat)
    requires at + n <= buff.Length && Tcp(buff[at..at + n])
    modifies buff
    ensures buff[at..at + n] == SealTcp(old(buff[at..at + n]))
    ensures ChangedOnly(buff, at, n)
  {
    hide SealTransport, ChangedOnly;
    SealTransportAt(buff, at, n, 16);
  }

  // ----- the source address

  method SetSourceAt(buff: array<Octet>, at: nat, n: nat, addr: seq<Octet>)
    requires |addr| == 4 && 20 <= n && at + n <= buff.Length
    modifies buff
    ensures buff[at..at + n] == SetSource(old(buff[at..at + n]), addr)
    ensures ChangedOnly(buff, at, n)
  {
    ghost var q := buff[at..at + n];
    Put(buff, at + 12, addr);
    ghost var s := buff[at..at + n];
    forall i | 0 <= i < n ensures s[i] == SetSource(q, addr)[i] {
      if 12 <= i < 16 { assert buff[at + 12..at + 16][i - 12] == addr[i - 12]; }
    }
  }

  /** The rewrite of the source address before a packet is tunnelled. */
  method ReaddressAt(buff: array<Octet>, at: nat, n: nat, addr: seq<Octet>, ghost q: seq<Octet>)
    requires |addr| == 4 && at + n <= buff.Length && q == buff[at..at + n] && Ip(q)
    requires q[12..16] != addr ==> Forwardable(q)
    modifies buff
    ensures buff[at..at + n] == Readdress(q, addr)
    ensures ChangedOnly(buff, at, n)
  {
    hide SealIp, SealTransport, SetSource;
    SubSlice(buff[..], at, at + n, 12, 16);
    if buff[at + 12..at + 16] == addr { return; }
    var k := if buff[at + 9] == 6 then 16 else 6;
    assert q[9] == buff[at + 9];
    SetSourceAt(buff, at, n, addr);
    SealIpAt(buff, at, n);
    SealTransportAt(buff, at, n, k);
  }

  // ----- one output packet: Ethernet header, then the edited IP packet

  lemma {:induction false} Joined(buff: array<Octet>, off: nat, eth: seq<Octet>, n: nat, r: seq<Octet>)
    requires off + ETH + n <= buff.Length && buff[off..off + ETH] == eth && buff[off + ETH..off + ETH + n] == r
    ensures buff[off..off + ETH + n] == eth + r
  {
    assert buff[off..off + ETH + n] == buff[off..off + ETH] + buff[off + ETH..off + ETH + n];
  }

  method Copy(buff: array<Octet>, off: nat, eth: seq<Octet>, x: seq<Octet>)
    requires |eth| == ETH && off + ETH + |x| <= buff.Length
    modifies buff
    ensures buff[off..off + ETH] == eth && buff[off + ETH..off + ETH + |x|] == x
    ensures ChangedOnly(buff, off, ETH + |x|)
  {
    Put(buff, off, eth);
    Put(buff, off + ETH, x);
    assert buff[off..off + ETH] == eth;
  }

  method EmitFragment(buff: array<Octet>, off: nat, eth: seq<Octet>, x: seq<Octet>, frag: U16)
    requires |eth| == ETH && off + ETH + |x| <= buff.Length
    requires 20 <= |x| < M16 && x[0] / 16 == 4 && 20 <= HeaderLen(x) <= |x|
    modifies buff
    ensures buff[off..off + ETH + |x|] == eth + Repackage(x, frag)
    ensures ChangedOnly(buff, off, ETH + |x|)
  {
    hide SealIp;
    var at, n := off + ETH, |x|;
    Copy(buff, off, eth, x);
    SetBe16(buff, at, n, 2, n);
    SetBe16(buff, at, n, 6, frag);
    SealIpAt(buff, at, n);
    assert buff[off..at] == eth;
    Joined(buff, off, eth, n, Repackage(x, frag));
  }

  method EmitFragments(buff: array<Octet>, off: nat, eth: seq<Octet>, q: seq<Octet>, h: nat,
      d: nat) returns (second: nat, end: nat)
    requires |eth| == ETH && Tcp(q) && h == HeaderLen(q) && h + d < |q|
    requires off + 2 * (ETH + |q|) <= buff.Length
    modifies buff
    ensures off <= second <= end <= buff.Length
    ensures buff[off..second] == eth + FirstFragment(q, d) && buff[second..end] == eth + SecondFragment(q, d)
    ensures ChangedOnly(buff, off, end - off)
  {
    hide Repackage, Fragment.Ip, Tcp;
    var x, y := q[..h + d], q[..h] + q[h + d..];
    CutPacket(q, h, d);
    EmitFragment(buff, off, eth, x, IP_MF);
    second := off + ETH + |x|;
    ghost var first := buff[off..second];
    EmitFragment(buff, second, eth, y, d / 8);
    assert buff[off..second] == first;
    end := second + ETH + |y|;
  }

  /** What a splitting method leaves: the packets of fs, the whole packet standing for itself. */
  ghost predicate Emitted(r: Split, end: nat, off: nat, buff: array<Octet>, eth: seq<Octet>, q: seq<Octet>,
      fs: seq<seq<Octet>>)
    reads buff
  {
    match r
    case Whole => fs == [q] && end == off
    case Two(first, second) =>
      && first == off <= second <= end <= buff.Length && |fs| == 2
      && buff[first..second] == eth + fs[0] && buff[second..end] == eth + fs[1]
  }

  /** ip_fragment. */
  method IpFragment(packet: array<Octet>, split: nat, buff: array<Octet>, off: nat) returns (r: Split, end: nat)
    requires packet != buff && packet.Length >= ETH && Tcp(packet[ETH..])
    requires off + 2 * packet.Length <= buff.Length
    modifies buff
    ensures Emitted(r, end, off, buff, packet[..ETH], packet[ETH..], IpFragments(packet[ETH..], split))
    ensures off <= end && ChangedOnly(buff, off, end - off)
  {
    hide FirstFragment, SecondFragment, Tcp, DataSplit;
    var eth, q := packet[..ETH], packet[ETH..];
    var h, d := IpSplit(packet, split, q);
    if h + d >= |q| { return Whole, off; }
    var second;
    second, end := EmitFragments(buff, off, eth, q, h, d);
    assert packet[ETH..] == q && packet[..ETH] == eth;
    r := Two(off, second);
  }

  /** The split point, rounded up to a multiple of 8 behind the TCP header. */
  method IpSplit(packet: array<Octet>, split: nat, ghost q: seq<Octet>) returns (h: nat, d: nat)
    requires packet.Length >= ETH && q == packet[ETH..] && Tcp(q)
    ensures h == HeaderLen(q) && d == DataSplit(q, split)
  {
    assert q[0] == packet[ETH];
    h := packet[ETH] % 16 * 4;
    assert q[h + 12] == packet[ETH + h + 12];
    var s := split + packet[ETH + h + 12] / 16 * 4;
    d := s + (8 - s % 8);
  }

  lemma {:induction false} CutPacket(q: seq<Octet>, h: nat, d: nat)
    requires Tcp(q) && h == HeaderLen(q) && h + d < |q|
    ensures var x, y := q[..h + d], q[..h] + q[h + d..];
            && 20 <= |x| < M16 && x[0] / 16 == 4 && HeaderLen(x) == h && 20 <= h <= |x|
            && 20 <= |y| < M16 && y[0] / 16 == 4 && HeaderLen(y) == h && h <= |y| && d / 8 < M16
  {
  }

  // ----- tcp_fragment

  method SetByte(buff: array<Octet>, at: nat, n: nat, k: nat, v: Octet)
    requires k < n && at + n <= buff.Length
    modifies buff
    ensures buff[at..at + n] == old(buff[at..at + n])[k := v]
    ensures ChangedOnly(buff, at, n)
  {
    buff[at + k] := v;
    assert buff[at..at + n] == old(buff[at..at + n])[k := v];
  }

  /** Copies x, adapts the length and seals the IP header. */
  method EmitRelength(buff: array<Octet>, off: nat, eth: seq<Octet>, x: seq<Octet>)
    requires |eth| == ETH && off + ETH + |x| <= buff.Length
    requires 20 <= |x| < M16 && x[0] / 16 == 4 && 20 <= HeaderLen(x) <= |x|
    modifies buff
    ensures buff[off..off + ETH] == eth && buff[off + ETH..off + ETH + |x|] == Relength(x)
    ensures ChangedOnly(buff, off, ETH + |x|)
  {
    hide SealIp;
    var at, n := off + ETH, |x|;
    Copy(buff, off, eth, x);
    SetBe16(buff, at, n, 2, n);
    SealIpAt(buff, at, n);
    assert buff[off..at] == eth;
  }

  method EditFirstAt(buff: array<Octet>, at: nat, n: nat, t: nat, ghost a: seq<Octet>)
    requires at + n <= buff.Length && buff[at..at + n] == a && Tcp(a) && t == HeaderLen(a)
    modifies buff
    ensures buff[at..at + n] == SealTcp(FirstEdit(a))
    ensures ChangedOnly(buff, at, n)
  {
    hide SealTcp, ClearFinPsh;
    assert buff[at + t + 13] == a[t + 13];
    SetByte(buff, at, n, t + 13, ClearFinPsh(buff[at + t + 13]));
    SetBe16(buff, at, n, t + 14, 0);
    assert buff[at..at + n] == FirstEdit(a);
    SealTcpAt(buff, at, n);
  }

  method EditSecondAt(buff: array<Octet>, at: nat, n: nat, t: nat, s: nat, ghost a: seq<Octet>)
    requires at + n <= buff.Length && buff[at..at + n] == a && Tcp(a) && t == HeaderLen(a) && s < M32
    modifies buff
    ensures buff[at..at + n] == SealTcp(SecondEdit(a, s))
    ensures ChangedOnly(buff, at, n)
  {
    hide SealTcp;
    SetBe16(buff, at, n, t + 4, s / M16);
    SetBe16(buff, at, n, t + 6, s % M16);
    assert buff[at..at + n] == SecondEdit(a, s);
    SealTcpAt(buff, at, n);
  }

  /** Bytes under the headers of q can be relengthed, and the result edited. */
  lemma {:induction false} Editable(x: seq<Octet>, q: seq<Octet>)
    requires Tcp(q) && UnderHeaders(x, q)
    ensures 20 <= |x| < M16 && x[0] / 16 == 4 && 20 <= HeaderLen(x) <= |x|
    ensures var a := Relength(x); |a| == |x| && Tcp(a) && HeaderLen(a) == HeaderLen(q)
  {
    RelengthKeepsTcp(x, q);
  }

  lemma {:induction false} FrontUnderHeaders(q: seq<Octet>, split: nat)
    requires Tcp(q) && split < |TcpData(q)|
    ensures var h := HeaderLen(q) + DataOffset(q);
            && UnderHeaders(q[..h + split], q) && UnderHeaders(q[..h] + q[h + split..], q)
  {
    var h := HeaderLen(q) + DataOffset(q);
    assert q[..h + split][..h] == q[..h] && (q[..h] + q[h + split..])[..h] == q[..h];
  }

  method EmitFirst(buff: array<Octet>, off: nat, eth: seq<Octet>, x: seq<Octet>, t: nat, ghost a: seq<Octet>)
    requires |eth| == ETH && off + ETH + |x| <= buff.Length
    requires 20 <= |x| < M16 && x[0] / 16 == 4 && 20 <= HeaderLen(x) <= |x|
    requires a == Relength(x) && |a| == |x| && Tcp(a) && t == HeaderLen(a)
    modifies buff
    ensures buff[off..off + ETH + |x|] == eth + SealTcp(FirstEdit(a))
    ensures ChangedOnly(buff, off, ETH + |x|)
  {
    hide SealTcp, Relength, FirstEdit, TcpEdit, Tcp;
    var at, n := off + ETH, |x|;
    EmitRelength(buff, off, eth, x);
    EditFirstAt(buff, at, n, t, a);
    assert buff[off..at] == eth;
    Joined(buff, off, eth, n, SealTcp(FirstEdit(a)));
  }

  method EmitSecond(buff: array<Octet>, off: nat, eth: seq<Octet>, y: seq<Octet>, t: nat, sn: nat, ghost a: seq<Octet>)
    requires |eth| == ETH && off + ETH + |y| <= buff.Length && sn < M32
    requires 20 <= |y| < M16 && y[0] / 16 == 4 && 20 <= HeaderLen(y) <= |y|
    requires a == Relength(y) && |a| == |y| && Tcp(a) && t == HeaderLen(a)
    modifies buff
    ensures buff[off..off + ETH + |y|] == eth + SealTcp(SecondEdit(a, sn))
    ensures ChangedOnly(buff, off, ETH + |y|)
  {
    hide SealTcp, Relength, SecondEdit, TcpEdit, Tcp;
    var at, n := off + ETH, |y|;
    EmitRelength(buff, off, eth, y);
    EditSecondAt(buff, at, n, t, sn, a);
    assert buff[off..at] == eth;
    Joined(buff, off, eth, n, SealTcp(SecondEdit(a, sn)));
  }

  method EmitFirstSegment(buff: array<Octet>, off: nat, eth: seq<Octet>, q: seq<Octet>, split: nat, x: seq<Octet>)
    requires |eth| == ETH && Tcp(q) && split < |TcpData(q)| && x == q[..HeaderLen(q) + DataOffset(q) + split]
    requires off + ETH + |x| <= buff.Length
    modifies buff
    ensures buff[off..off + ETH + |x|] == eth + FirstSegment(q, split)
    ensures ChangedOnly(buff, off, ETH + |x|)
  {
    hide SealTcp, Relength, FirstEdit, TcpEdit, ChangedOnly;
    FrontUnderHeaders(q, split);
    Editable(x, q);
    EmitFirst(buff, off, eth, x, HeaderLen(q), Relength(x));
  }

  method EmitSecondSegment(buff: array<Octet>, off: nat, eth: seq<Octet>, q: seq<Octet>, split: nat, y: seq<Octet>)
    requires |eth| == ETH && Tcp(q) && split < |TcpData(q)|
    requires var h := HeaderLen(q) + DataOffset(q); y == q[..h] + q[h + split..]
    requires off + ETH + |y| <= buff.Length
    modifies buff
    ensures buff[off..off + ETH + |y|] == eth + SecondSegment(q, split)
    ensures ChangedOnly(buff, off, ETH + |y|)
  {
    hide SealTcp, Relength, SecondEdit, TcpEdit, ChangedOnly;
    FrontUnderHeaders(q, split);
    Editable(y, q);
    EmitSecond(buff, off, eth, y, HeaderLen(q), (TcpSeq(q) + split) % M32, Relength(y));
  }

  method EmitSegments(buff: array<Octet>, off: nat, eth: seq<Octet>, q: seq<Octet>,
      split: nat) returns (second: nat, end: nat)
    requires |eth| == ETH && Tcp(q) && split < |TcpData(q)| && off + 2 * (ETH + |q|) <= buff.Length
    modifies buff
    ensures off <= second <= end <= buff.Length
    ensures buff[off..second] == eth + FirstSegment(q, split) && buff[second..end] == eth + SecondSegment(q, split)
    ensures ChangedOnly(buff, off, end - off)
  {
    hide FirstSegment, SecondSegment, Fragment.Ip;
    var h := HeaderLen(q) + DataOffset(q);
    var x, y := q[..h + split], q[..h] + q[h + split..];
    EmitFirstSegment(buff, off, eth, q, split, x);
    second := off + ETH + |x|;
    ghost var first := buff[off..second];
    EmitSecondSegment(buff, second, eth, q, split, y);
    assert buff[off..second] == first;
    end := second + ETH + |y|;
  }

  /** tcp_fragment. */
  method TcpFragment(packet: array<Octet>, split: nat, buff: array<Octet>, off: nat) returns (r: Split, end: nat)
    requires packet != buff && packet.Length >= ETH && Tcp(packet[ETH..])
    requires off + 2 * packet.Length <= buff.Length
    modifies buff
    ensures Emitted(r, end, off, buff, packet[..ETH], packet[ETH..], TcpSegments(packet[ETH..], split))
    ensures off <= end && ChangedOnly(buff, off, end - off)
  {
    hide FirstSegment, SecondSegment, Tcp;
    var eth, q := packet[..ETH], packet[ETH..];
    if split >= |TcpData(q)| { return Whole, off; }
    var second;
    second, end := EmitSegments(buff, off, eth, q, split);
    assert packet[ETH..] == q && packet[..ETH] == eth;
    r := Two(off, second);
  }
}
