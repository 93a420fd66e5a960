/** Splitting IPv4/TCP packets: at the network layer into fragments, or at the transport layer into segments. */
module Fragment {
  import opened Common
  import opened Arith
  import opened Bytes
  import opened Checksum

  // ----- header fields; packets start at the IP header

  function Be16(q: seq<Octet>, k: nat): (v: U16)
    requires k + 1 < |q|
  {
    var hi: int, lo: int := q[k], q[k + 1];
    256 * hi + lo
  }

  function PutBe16(q: seq<Octet>, k: nat, v: U16): (r: seq<Octet>)
    requires k + 1 < |q|
    ensures |r| == |q| && Be16(r, k) == v
    ensures forall i :: 0 <= i < |q| && i != k && i != k + 1 ==> r[i] == q[i]
  {
    q[k := v / 256][k + 1 := v % 256]
  }

  function Be32(q: seq<Octet>, k: nat): (v: nat)
    requires k + 3 < |q|
    ensures v < M32
  {
    var hi: int, lo: int := Be16(q, k), Be16(q, k + 2);
    M16 * hi + lo
  }

  function PutBe32(q: seq<Octet>, k: nat, v: nat): (r: seq<Octet>)
    requires k + 3 < |q| && v < M32
    ensures |r| == |q| && Be32(r, k) == v
    ensures forall i :: 0 <= i < |q| && !(k <= i < k + 4) ==> r[i] == q[i]
  {
    PutBe16(PutBe16(q, k, v / M16), k + 2, v % M16)
  }

  function HeaderLen(q: seq<Octet>): nat
    requires |q| > 0
  {
    q[0] % 16 * 4
  }

  function TotLen(q: seq<Octet>): U16
    requires |q| >= 20
  {
    Be16(q, 2)
  }

  /** An IPv4 packet whose lengths agree. */
  predicate Ip(q: seq<Octet>)
  {
    |q| >= 20 && q[0] / 16 == 4 && 20 <= HeaderLen(q) <= |q| && TotLen(q) == |q|
  }

  function FragOffset(q: seq<Octet>): nat
    requires |q| >= 20
  {
    Be16(q, 6) % 8192
  }

  predicate MoreFragments(q: seq<Octet>)
    requires |q| >= 20
  {
    Be16(q, 6) / 8192 % 2 == 1
  }

  function IpData(q: seq<Octet>): (d: seq<Octet>)
    requires Ip(q)
    ensures |d| == |q| - HeaderLen(q)
  {
    q[HeaderLen(q)..]
  }

  function DataOffset(q: seq<Octet>): nat
    requires |q| > 0 && HeaderLen(q) + 12 < |q|
  {
    q[HeaderLen(q) + 12] / 16 * 4
  }

  /** A well-formed, unfragmented TCP packet. */
  predicate Tcp(q: seq<Octet>)
  {
    && Ip(q) && q[9] == 6 && HeaderLen(q) + 20 <= |q|
    && 20 <= DataOffset(q) && HeaderLen(q) + DataOffset(q) <= |q|
  }

  function TcpSeq(q: seq<Octet>): nat
    requires Tcp(q)
  {
    Be32(q, HeaderLen(q) + 4)
  }

  function TcpData(q: seq<Octet>): seq<Octet>
    requires Tcp(q)
  {
    q[HeaderLen(q) + DataOffset(q)..]
  }

  // ----- checksums of headers

  predicate IpChecked(q: seq<Octet>)
    requires Ip(q)
  {
    HostChecksum([], q[..HeaderLen(q)]) == 0
  }

  function Pseudo(q: seq<Octet>): seq<Octet>
    requires Ip(q)
  {
    var n := TotLen(q) - HeaderLen(q);
    q[12..20] + [0, 6, n / 256, n % 256]
  }

  predicate TcpChecked(q: seq<Octet>)
    requires Ip(q)
  {
    HostChecksum(Pseudo(q), IpData(q)) == 0
  }

  /** The IP checksum zeroed, computed and stored. */
  function SealIp(q: seq<Octet>): (r: seq<Octet>)
    requires Ip(q)
    ensures |r| == |q| && Ip(r) && HeaderLen(r) == HeaderLen(q)
    ensures forall i :: 0 <= i < |q| && i != 10 && i != 11 ==> r[i] == q[i]
  {
    var z := Store(q, 10, 0);
    Store(z, 10, HostChecksum([], z[..HeaderLen(q)]))
  }

  lemma {:induction false} SealIpChecked(q: seq<Octet>)
    requires Ip(q)
    ensures IpChecked(SealIp(q))
  {
    hide HostChecksum;
    var h, z := HeaderLen(q), Store(q, 10, 0);
    var c := HostChecksum([], z[..h]);
    assert SealIp(q)[..h] == Store(z[..h], 10, c);
    RecheckIsZero([], z[..h], 10);
  }

  // ----- the source address

  /** Where the checksum lies in a TCP or UDP header. */
  function ChecksumField(q: seq<Octet>): nat
    requires |q| >= 20
  {
    if q[9] == 6 then 16 else 6
  }

  /** A TCP or UDP packet long enough for its header. */
  predicate Forwardable(q: seq<Octet>)
  {
    Ip(q) && (q[9] == 6 || q[9] == 17) && HeaderLen(q) + (if q[9] == 6 then 20 else 8) <= |q|
  }

  /** The transport checksum zeroed, computed over pseudo header and payload, and stored k bytes into the payload. */
  function SealTransport(q: seq<Octet>, k: nat): (r: seq<Octet>)
    requires Ip(q) && HeaderLen(q) + k + 1 < |q|
    ensures |r| == |q| && Ip(r) && HeaderLen(r) == HeaderLen(q)
    ensures forall i :: 0 <= i < |q| && i != HeaderLen(q) + k && i != HeaderLen(q) + k + 1 ==> r[i] == q[i]
  {
    var t := HeaderLen(q);
    var z := Store(q, t + k, 0);
    Store(z, t + k, HostChecksum(Pseudo(z), z[t..]))
  }

  lemma {:induction false} SealTransportChecked(q: seq<Octet>, k: nat)
    requires Ip(q) && k % 2 == 0 && HeaderLen(q) + k + 1 < |q|
    ensures TcpChecked(SealTransport(q, k))
  {
    hide HostChecksum;
    var t := HeaderLen(q);
    var z := Store(q, t + k, 0);
    var c, r := HostChecksum(Pseudo(z), z[t..]), SealTransport(q, k);
    assert r[t..] == Store(z[t..], k, c);
    assert r[12..20] == z[12..20] && Pseudo(r) == Pseudo(z);
    RecheckIsZero(Pseudo(z), z[t..], k);
  }

  /** The TCP checksum zeroed, computed and stored. */
  function SealTcp(q: seq<Octet>): (r: seq<Octet>)
    requires Tcp(q)
    ensures |r| == |q| && Tcp(r) && HeaderLen(r) == HeaderLen(q)
    ensures forall i :: 0 <= i < |q| && i != HeaderLen(q) + 16 && i != HeaderLen(q) + 17 ==> r[i] == q[i]
  {
    SealTransport(q, 16)
  }

  lemma {:induction false} SealTcpChecked(q: seq<Octet>)
    requires Tcp(q)
    ensures TcpChecked(SealTcp(q))
  {
    SealTransportChecked(q, 16);
  }

  function SetSource(q: seq<Octet>, addr: seq<Octet>): (r: seq<Octet>)
    requires |addr| == 4 && |q| >= 20
    ensures |r| == |q| && r[12..16] == addr && forall i :: 0 <= i < |q| && !(12 <= i < 16) ==> r[i] == q[i]
  {
    var r := q[..12] + addr + q[16..];
    assert r[12..16] == addr;
    r
  }

  /** A packet with another source address than the tunnel's gets that address and new checksums. */
  function Readdress(q: seq<Octet>, addr: seq<Octet>): (r: seq<Octet>)
    requires |addr| == 4 && Ip(q) && (q[12..16] != addr ==> Forwardable(q))
    ensures |r| == |q| && Ip(r) && HeaderLen(r) == HeaderLen(q)
  {
    if q[12..16] == addr then q else SealTransport(SealIp(SetSource(q, addr)), ChecksumField(q))
  }

  /** The new packet has the address and valid checksums, and differs in nothing else. */
  lemma {:induction false} ReaddressFacts(q: seq<Octet>, addr: seq<Octet>)
    requires |addr| == 4 && Ip(q) && (q[12..16] != addr ==> Forwardable(q))
    ensures var r, k := Readdress(q, addr), HeaderLen(q) + ChecksumField(q);
            && r[12..16] == addr && (q[12..16] != addr ==> IpChecked(r) && TcpChecked(r))
            && forall i :: 0 <= i < |q| && !(10 <= i < 16) && i != k && i != k + 1 ==> r[i] == q[i]
  {
    hide IpChecked, TcpChecked, SealTransport, SealIp, SetSource;
    if q[12..16] != addr {
      var a := SetSource(q, addr);
      var b, t := SealIp(a), HeaderLen(q);
      SealIpChecked(a);
      SealTransportChecked(b, ChecksumField(q));
      var r := SealTransport(b, ChecksumField(q));
      assert b[12..16] == a[12..16] && r[12..16] == b[12..16];
      SameHeader(b, r);
    }
  }

  lemma {:induction false} SameHeader(q: seq<Octet>, r: seq<Octet>)
    requires Ip(q) && IpChecked(q) && |r| == |q| && Ip(r) && forall i :: 0 <= i < HeaderLen(q) ==> r[i] == q[i]
    ensures IpChecked(r)
  {
    assert r[..HeaderLen(q)] == q[..HeaderLen(q)];
  }

  // ----- ip_fragment

  const IP_MF: U16 := 0x2000

  /** The split point within the IP payload: behind the TCP header, moved up to the next multiple of 8. */
  function DataSplit(q: seq<Octet>, split: nat): (d: nat)
    requires Tcp(q)
    ensures d % 8 == 0 && DataOffset(q) + split < d <= DataOffset(q) + split + 8
  {
    var d := split + DataOffset(q);
    d + (8 - d % 8)
  }

  /** A packet made of other bytes under an adapted IP header. */
  function Repackage(x: seq<Octet>, frag: U16): (r: seq<Octet>)
    requires 20 <= |x| < M16 && x[0] / 16 == 4 && 20 <= HeaderLen(x) <= |x|
    ensures |r| == |x| && Ip(r) && HeaderLen(r) == HeaderLen(x) && Be16(r, 6) == frag
    ensures forall i :: 0 <= i < |x| && !(2 <= i < 4 || 6 <= i < 8 || 10 <= i < 12) ==> r[i] == x[i]
  {
    SealIp(PutBe16(PutBe16(x, 2, |x|), 6, frag))
  }

  lemma {:induction false} RepackageChecked(x: seq<Octet>, frag: U16)
    requires 20 <= |x| < M16 && x[0] / 16 == 4 && 20 <= HeaderLen(x) <= |x|
    ensures IpChecked(Repackage(x, frag))
  {
    hide SealIp, IpChecked;
    SealIpChecked(PutBe16(PutBe16(x, 2, |x|), 6, frag));
  }

  function FirstFragment(q: seq<Octet>, d: nat): seq<Octet>
    requires Tcp(q) && HeaderLen(q) + d < |q|
  {
    Repackage(q[..HeaderLen(q) + d], IP_MF)
  }

  function SecondFragment(q: seq<Octet>, d: nat): seq<Octet>
    requires Tcp(q) && HeaderLen(q) + d < |q|
  {
    Repackage(q[..HeaderLen(q)] + q[HeaderLen(q) + d..], d / 8)
  }

  /** What ip_fragment emits: the packet itself when the split point lies at or past its end. */
  function IpFragments(q: seq<Octet>, split: nat): seq<seq<Octet>>
    requires Tcp(q)
  {
    var d := DataSplit(q, split);
    if HeaderLen(q) + d >= |q| then [q] else [FirstFragment(q, d), SecondFragment(q, d)]
  }

  // ----- reassembly as in section 3.2 of RFC 791

  /** Fragments with the same identification, protocol and addresses share a buffer. */
  predicate SameBuffer(f: seq<Octet>, g: seq<Octet>)
    requires |f| >= 20 && |g| >= 20
  {
    f[4..6] == g[4..6] && f[9] == g[9] && f[12..20] == g[12..20]
  }

  datatype Buffer = Buffer(bytes: map<nat, Octet>, total: Option<nat>)

  /** The byte at position k of data placed at `at`. */
  function Placed(d: seq<Octet>, at: nat, k: nat): Octet
    requires at <= k < at + |d|
  {
    d[k - at]
  }

  ghost function Patch(d: seq<Octet>, at: nat): map<nat, Octet>
  {
    map k: nat | at <= k < at + |d| :: Placed(d, at, k)
  }

  /** A fragment's data enters at its offset; the one without MF fixes the total length. */
  ghost function Arrive(b: Buffer, f: seq<Octet>): Buffer
    requires Ip(f)
  {
    var at, d := 8 * FragOffset(f), IpData(f);
    Buffer(b.bytes + Patch(d, at), if MoreFragments(f) then b.total else Some(at + |d|))
  }

  /** The buffer holds exactly the payload. */
  ghost predicate Complete(b: Buffer, payload: seq<Octet>)
  {
    b.total == Some(|payload|) && forall k :: 0 <= k < |payload| ==> k in b.bytes && b.bytes[k] == payload[k]
  }

  lemma {:induction false} RepackageFacts(x: seq<Octet>, frag: U16, q: seq<Octet>)
    requires Ip(q) && HeaderLen(q) <= |x| < M16 && x[..HeaderLen(q)] == q[..HeaderLen(q)]
    ensures var r := Repackage(x, frag);
            && Ip(r) && IpChecked(r) && Be16(r, 6) == frag && IpData(r) == x[HeaderLen(q)..] && SameBuffer(r, q)
  {
    hide IpChecked;
    var h := HeaderLen(q);
    assert forall i :: 0 <= i < h ==> x[i] == x[..h][i] == q[..h][i] == q[i];
    var r := Repackage(x, frag);
    RepackageChecked(x, frag);
    assert r[h..] == x[h..];
    assert r[4..6] == q[4..6] && r[12..20] == q[12..20];
  }

  lemma {:induction false} FragmentFacts(q: seq<Octet>, d: nat)
    requires Tcp(q) && HeaderLen(q) + d < |q| && d % 8 == 0
    ensures var f, g := FirstFragment(q, d), SecondFragment(q, d);
            && Ip(f) && IpChecked(f) && MoreFragments(f) && FragOffset(f) == 0 && IpData(f) == IpData(q)[..d]
            && Ip(g) && IpChecked(g) && !MoreFragments(g) && 8 * FragOffset(g) == d && IpData(g) == IpData(q)[d..]
            && SameBuffer(f, q) && SameBuffer(g, q)
  {
    hide IpChecked, Repackage, SameBuffer;
    var h := HeaderLen(q);
    var x, y := q[..h + d], q[..h] + q[h + d..];
    Offsets(d);
    assert x[..h] == q[..h] && x[h..] == q[h..][..d];
    RepackageFacts(x, IP_MF, q);
    assert y[..h] == q[..h] && y[h..] == q[h..][d..];
    RepackageFacts(y, d / 8, q);
  }

  lemma {:induction false} Offsets(d: nat)
    requires d % 8 == 0 && d < M16
    ensures d / 8 % 8192 == d / 8 && d / 8 / 8192 == 0 && IP_MF % 8192 == 0 && IP_MF / 8192 % 2 == 1
  {
  }

  /**
   Network-layer splitting: every fragment has consistent lengths and a valid header checksum, and reassembly
   gives the original IP payload in either order of arrival.
   */
  lemma {:induction false} FragmentsReassemble(q: seq<Octet>, split: nat)
    requires Tcp(q) && FragOffset(q) == 0 && !MoreFragments(q)
    ensures var fs := IpFragments(q, split);
            && (forall i :: 0 <= i < |fs| ==> Ip(fs[i]) && SameBuffer(fs[i], q))
            && (|fs| == 1 ==> fs == [q] && Complete(Arrive(Buffer(map[], None), q), IpData(q)))
            && (|fs| == 2 ==>
                  && IpChecked(fs[0]) && IpChecked(fs[1])
                  && Complete(Arrive(Arrive(Buffer(map[], None), fs[0]), fs[1]), IpData(q))
                  && Complete(Arrive(Arrive(Buffer(map[], None), fs[1]), fs[0]), IpData(q)))
  {
    hide IpChecked, FirstFragment, SecondFragment, SameBuffer, MoreFragments, FragOffset, Arrive, Complete, IpData;
    var d := DataSplit(q, split);
    if HeaderLen(q) + d < |q| {
      FragmentFacts(q, d);
      TwoArrive(FirstFragment(q, d), SecondFragment(q, d), d, IpData(q));
    } else {
      OneArrives(q);
    }
  }

  lemma {:induction false} OneArrives(q: seq<Octet>)
    requires Ip(q) && FragOffset(q) == 0 && !MoreFragments(q)
    ensures SameBuffer(q, q) && Complete(Arrive(Buffer(map[], None), q), IpData(q))
  {
    hide MoreFragments, FragOffset, IpData;
  }

  /**
   Where the packet is cut: r being the multiple of 8 above the TCP header and the split, there are two fragments iff r
   lies inside the payload, and the first then holds exactly r payload bytes.
   */
  lemma {:induction false} FragmentsCut(q: seq<Octet>, split: nat, r: nat)
    requires Tcp(q) && r % 8 == 0 && DataOffset(q) + split < r <= DataOffset(q) + split + 8
    ensures var fs := IpFragments(q, split);
            && (|fs| == 2 <==> r < |IpData(q)|) && (|fs| == 1 <==> r >= |IpData(q)|)
            && (|fs| == 2 ==>
                  Ip(fs[0]) && IpData(fs[0]) == IpData(q)[..r] && Ip(fs[1]) && IpData(fs[1]) == IpData(q)[r..])
  {
    hide FirstFragment, SecondFragment, IpData;
    var d := DataSplit(q, split);
    SameMultiple(d, r, DataOffset(q) + split);
    if HeaderLen(q) + d < |q| { FragmentFacts(q, d); }
  }

  lemma {:induction false} SameMultiple(d: nat, r: nat, n: nat)
    requires d % 8 == 0 && r % 8 == 0 && n < d <= n + 8 && n < r <= n + 8
    ensures d == r
  {
  }

  lemma {:induction false} TwoArrive(f: seq<Octet>, g: seq<Octet>, d: nat, payload: seq<Octet>)
    requires Ip(f) && Ip(g) && d <= |payload| && IpData(f) == payload[..d] && IpData(g) == payload[d..]
    requires MoreFragments(f) && FragOffset(f) == 0 && !MoreFragments(g) && 8 * FragOffset(g) == d
    ensures Complete(Arrive(Arrive(Buffer(map[], None), f), g), payload)
    ensures Complete(Arrive(Arrive(Buffer(map[], None), g), f), payload)
  {
    hide Ip, IpData, MoreFragments, FragOffset;
  }

  // ----- tcp_fragment

  /** Flag bits 0 (FIN) and 3 (PSH) cleared. */
  function ClearFinPsh(f: Octet): (g: Octet)
    ensures g % 2 == 0 && g / 8 % 2 == 0 && g / 2 % 4 == f / 2 % 4 && g / 16 == f / 16
  {
    var hi: int, mid: int := f / 16, f / 2 % 4;
    var g: int := 16 * hi + 2 * mid;
    assert g / 2 == 8 * hi + mid && g / 8 == 2 * hi;
    g
  }

  function TcpFlags(q: seq<Octet>): Octet
    requires Tcp(q)
  {
    q[HeaderLen(q) + 13]
  }

  function Window(q: seq<Octet>): U16
    requires Tcp(q)
  {
    Be16(q, HeaderLen(q) + 14)
  }

  /** A packet of other bytes under an IP header with adapted length, its fragment field kept. */
  function Relength(x: seq<Octet>): (r: seq<Octet>)
    requires 20 <= |x| < M16 && x[0] / 16 == 4 && 20 <= HeaderLen(x) <= |x|
    ensures |r| == |x| && Ip(r) && HeaderLen(r) == HeaderLen(x)
    ensures forall i :: 0 <= i < |x| && !(2 <= i < 4 || 10 <= i < 12) ==> r[i] == x[i]
  {
    SealIp(PutBe16(x, 2, |x|))
  }

  lemma {:induction false} RelengthChecked(x: seq<Octet>)
    requires 20 <= |x| < M16 && x[0] / 16 == 4 && 20 <= HeaderLen(x) <= |x|
    ensures IpChecked(Relength(x))
  {
    hide SealIp, IpChecked;
    SealIpChecked(PutBe16(x, 2, |x|));
  }

  /** Bytes that start with the headers of q. */
  predicate UnderHeaders(x: seq<Octet>, q: seq<Octet>)
    requires Tcp(q)
  {
    var h := HeaderLen(q) + DataOffset(q);
    h <= |x| < M16 && x[..h] == q[..h]
  }

  /** The length is adapted and the IP header sealed; then the TCP header is edited and sealed. */
  lemma {:induction false} RelengthKeepsTcp(x: seq<Octet>, q: seq<Octet>)
    requires Tcp(q) && UnderHeaders(x, q)
    ensures 20 <= |x| < M16 && x[0] / 16 == 4 && 20 <= HeaderLen(x) <= |x|
    ensures var r := Relength(x);
            && Tcp(r) && IpChecked(r) && HeaderLen(r) == HeaderLen(q) && DataOffset(r) == DataOffset(q)
            && TcpData(r) == x[HeaderLen(q) + DataOffset(q)..] && TcpSeq(r) == TcpSeq(q)
            && TcpFlags(r) == TcpFlags(q) && Window(r) == Window(q)
  {
    hide IpChecked, Relength;
    var h, t := HeaderLen(q) + DataOffset(q), HeaderLen(q);
    assert forall i :: 0 <= i < h ==> x[i] == x[..h][i] == q[..h][i] == q[i];
    RelengthChecked(x);
    var r := Relength(x);
    assert forall i :: 12 <= i < h ==> r[i] == q[i];
    assert r[9] == q[9];
    assert DataOffset(r) == DataOffset(q);
    assert r[h..] == x[h..];
  }

  function FirstSegment(q: seq<Octet>, split: nat): (r: seq<Octet>)
    requires Tcp(q) && split < |TcpData(q)|
  {
    var x := q[..HeaderLen(q) + DataOffset(q) + split];
    RelengthKeepsTcp(x, q);
    SealTcp(FirstEdit(Relength(x)))
  }

  function SecondSegment(q: seq<Octet>, split: nat): (r: seq<Octet>)
    requires Tcp(q) && split < |TcpData(q)|
  {
    var h := HeaderLen(q) + DataOffset(q);
    var y := q[..h] + q[h + split..];
    RelengthKeepsTcp(y, q);
    SealTcp(SecondEdit(Relength(y), (TcpSeq(q) + split) % M32))
  }

  /** What tcp_fragment emits. */
  function TcpSegments(q: seq<Octet>, split: nat): seq<seq<Octet>>
    requires Tcp(q)
  {
    if split >= |TcpData(q)| then [q] else [FirstSegment(q, split), SecondSegment(q, split)]
  }

  /** Only fixed TCP header fields other than the data offset differ. */
  predicate TcpEdit(r: seq<Octet>, z: seq<Octet>)
    requires Tcp(r)
  {
    var t := HeaderLen(r);
    |z| == |r| && forall i :: 0 <= i < |r| && !(t <= i < t + 20 && i != t + 12) ==> z[i] == r[i]
  }

  lemma {:induction false} EditKeepsTcp(r: seq<Octet>, z: seq<Octet>)
    requires Tcp(r) && TcpEdit(r, z)
    ensures Tcp(z) && HeaderLen(z) == HeaderLen(r) && DataOffset(z) == DataOffset(r) && TcpData(z) == TcpData(r)
    ensures z[..HeaderLen(r)] == r[..HeaderLen(r)]
  {
  }

  lemma {:induction false} SealedEdit(r: seq<Octet>, z: seq<Octet>)
    requires Tcp(r) && IpChecked(r) && TcpEdit(r, z)
    ensures Tcp(z)
    ensures var s := SealTcp(z);
            && Tcp(s) && IpChecked(s) && TcpChecked(s) && TcpData(s) == TcpData(r)
            && TcpSeq(s) == TcpSeq(z) && TcpFlags(s) == TcpFlags(z) && Window(s) == Window(z)
  {
    hide TcpChecked, HostChecksum;
    EditKeepsTcp(r, z);
    SealTcpChecked(z);
    var s := SealTcp(z);
    EditKeepsTcp(z, s);
  }

  function FirstEdit(a: seq<Octet>): (z: seq<Octet>)
    requires Tcp(a)
    ensures TcpEdit(a, z) && Tcp(z) && HeaderLen(z) == HeaderLen(a)
    ensures TcpFlags(z) == ClearFinPsh(TcpFlags(a)) && Window(z) == 0 && TcpSeq(z) == TcpSeq(a)
  {
    var t := HeaderLen(a);
    var b := a[t + 13 := ClearFinPsh(a[t + 13])];
    var z := PutBe16(b, t + 14, 0);
    EditKeepsTcp(a, z);
    assert z[t + 13] == b[t + 13];
    assert z[t + 4] == a[t + 4] && z[t + 5] == a[t + 5] && z[t + 6] == a[t + 6] && z[t + 7] == a[t + 7];
    z
  }

  function SecondEdit(a: seq<Octet>, s: nat): (z: seq<Octet>)
    requires Tcp(a) && s < M32
    ensures TcpEdit(a, z) && Tcp(z) && HeaderLen(z) == HeaderLen(a)
    ensures TcpFlags(z) == TcpFlags(a) && Window(z) == Window(a) && TcpSeq(z) == s
  {
    var t := HeaderLen(a);
    var z := PutBe32(a, t + 4, s);
    EditKeepsTcp(a, z);
    assert z[t + 13] == a[t + 13] && z[t + 14] == a[t + 14] && z[t + 15] == a[t + 15];
    z
  }

  /** The first segment carries the front of the data, without FIN, PSH and window. */
  lemma {:induction false} FirstSegmentFacts(q: seq<Octet>, split: nat)
    requires Tcp(q) && split < |TcpData(q)|
    ensures var f := FirstSegment(q, split);
            && Tcp(f) && IpChecked(f) && TcpChecked(f) && TcpData(f) == TcpData(q)[..split] && TcpSeq(f) == TcpSeq(q)
            && TcpFlags(f) == ClearFinPsh(TcpFlags(q)) && Window(f) == 0
  {
    hide TcpChecked, IpChecked, Relength, SealTcp, ClearFinPsh, FirstEdit, TcpEdit, TcpSeq, TcpFlags, Window;
    var h := HeaderLen(q) + DataOffset(q);
    var x := q[..h + split];
    assert x[..h] == q[..h] && x[h..] == q[h..][..split];
    RelengthKeepsTcp(x, q);
    SealedEdit(Relength(x), FirstEdit(Relength(x)));
  }

  /** The second segment carries the rest, under the advanced sequence number and all original flags. */
  lemma {:induction false} SecondSegmentFacts(q: seq<Octet>, split: nat)
    requires Tcp(q) && split < |TcpData(q)|
    ensures var g := SecondSegment(q, split);
            && Tcp(g) && IpChecked(g) && TcpChecked(g) && TcpData(g) == TcpData(q)[split..]
            && TcpSeq(g) == (TcpSeq(q) + split) % M32 && TcpFlags(g) == TcpFlags(q) && Window(g) == Window(q)
  {
    hide TcpChecked, IpChecked, Relength, SealTcp, SecondEdit, TcpEdit, TcpSeq, TcpFlags, Window;
    var h := HeaderLen(q) + DataOffset(q);
    var y := q[..h] + q[h + split..];
    assert y[..h] == q[..h] && y[h..] == q[h..][split..];
    RelengthKeepsTcp(y, q);
    SealedEdit(Relength(y), SecondEdit(Relength(y), (TcpSeq(q) + split) % M32));
  }

  /** There are two segments iff the split lies inside the data, which they hold up to and from the split. */
  lemma {:induction false} SegmentsCut(q: seq<Octet>, split: nat)
    requires Tcp(q)
    ensures var fs := TcpSegments(q, split);
            && (|fs| == 2 <==> split < |TcpData(q)|) && (|fs| == 1 <==> split >= |TcpData(q)|)
            && (|fs| == 2 ==>
                  && Tcp(fs[0]) && TcpData(fs[0]) == TcpData(q)[..split]
                  && Tcp(fs[1]) && TcpData(fs[1]) == TcpData(q)[split..])
  {
    hide FirstSegment, SecondSegment;
    if split < |TcpData(q)| {
      FirstSegmentFacts(q, split);
      SecondSegmentFacts(q, split);
    }
  }

  /** The pseudo header: both addresses, a zero, the protocol number of TCP, and the length in network order. */
  lemma {:induction false} PseudoLayout(q: seq<Octet>)
    requires Ip(q)
    ensures var h := Pseudo(q);
            && |h| == 12 && h[..4] == q[12..16] && h[4..8] == q[16..20]
            && h[8] == 0 && h[9] == 6 && Be16(h, 10) == |IpData(q)|
  {
  }

  /** A segment enters the stream at its distance from a base sequence number, modulo 2^32. */
  ghost function Receive(stream: map<nat, Octet>, base: nat, q: seq<Octet>): map<nat, Octet>
    requires Tcp(q)
  {
    stream + Patch(TcpData(q), (TcpSeq(q) - base) % M32)
  }

  lemma {:induction false} Advance(s: nat, split: nat, base: nat)
    requires (s - base) % M32 + split < M32
    ensures ((s + split) % M32 - base) % M32 == (s - base) % M32 + split
  {
    var k := (s + split) / M32;
    assert (s + split) % M32 - base == (s - base + split) + -k * M32;
    AddMultiple(s - base + split, -k, M32);
    var r := (s - base) % M32 + split;
    var j := (s - base) / M32;
    assert s - base + split == r + j * M32;
    AddMultiple(r, j, M32);
  }

  lemma {:induction false} StreamJoin(stream: map<nat, Octet>, d: seq<Octet>, split: nat, at: nat)
    requires split <= |d|
    ensures stream + Patch(d[..split], at) + Patch(d[split..], at + split) == stream + Patch(d, at)
    ensures stream + Patch(d[split..], at + split) + Patch(d[..split], at) == stream + Patch(d, at)
  {
    var front, back, whole := Patch(d[..split], at), Patch(d[split..], at + split), Patch(d, at);
    assert front + back == whole by { PatchSplit(d, split, at); }
    assert back + front == whole by { PatchSplit(d, split, at); }
    assert stream + front + back == stream + (front + back);
    assert stream + back + front == stream + (back + front);
  }

  lemma {:induction false} PatchSplit(d: seq<Octet>, split: nat, at: nat)
    requires split <= |d|
    ensures Patch(d[..split], at) + Patch(d[split..], at + split) == Patch(d, at)
    ensures Patch(d[split..], at + split) + Patch(d[..split], at) == Patch(d, at)
  {
  }

  /**
   Transport-layer splitting: both segments have consistent lengths and valid checksums, and in either order they
   leave the receiver's stream as the original packet would, for every base within a sequence space of the data.
   */
  lemma {:induction false} SegmentsReassemble(q: seq<Octet>, split: nat, stream: map<nat, Octet>, base: nat)
    requires Tcp(q) && (TcpSeq(q) - base) % M32 + |TcpData(q)| <= M32
    ensures var fs := TcpSegments(q, split);
            && (|fs| == 1 ==> fs == [q])
            && (|fs| == 2 ==>
                  && (forall i :: 0 <= i < 2 ==> Tcp(fs[i]) && IpChecked(fs[i]) && TcpChecked(fs[i]))
                  && Receive(Receive(stream, base, fs[0]), base, fs[1]) == Receive(stream, base, q)
                  && Receive(Receive(stream, base, fs[1]), base, fs[0]) == Receive(stream, base, q))
  {
    hide TcpChecked, IpChecked, FirstSegment, SecondSegment, TcpSeq, Patch;
    if split < |TcpData(q)| {
      FirstSegmentFacts(q, split);
      SecondSegmentFacts(q, split);
      Advance(TcpSeq(q), split, base);
      StreamJoin(stream, TcpData(q), split, (TcpSeq(q) - base) % M32);
    }
  }
}
