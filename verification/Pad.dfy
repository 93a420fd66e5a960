/** The pad encoding: fixed-length or random-length padding in front of a packet. */
module Pad {
  import opened Common
  import opened Arith
  import opened Bytes
  import opened Buffers

  /** What pad_init leaves; a configured value is a non-empty string without zero bytes. */
  datatype Padding = Padding(fixed: bool, size: Octet, min: Octet, max: Octet, value: Option<seq<Octet>>)
  {
    ghost predicate Valid()
    {
      min <= max && (value.Some? ==> 0 < |value.value| <= 255)
    }

    /** The number of padding bytes, given the random length byte. */
    function Size(byte: Octet): (n: Octet)
      requires min <= max
    {
      if fixed then size else min + byte % (max - min + 1)
    }

    function Overhead(): nat { if fixed then size else max + 1 }

    /** Bytes taken in front of the payload. */
    function Header(byte: Octet): (n: nat)
      requires min <= max
      ensures n <= Overhead()
    {
      if fixed then size else Size(byte) + 1
    }

    /** Filling or checking n bytes looks at value[n] at most, which must not be past its terminator. */
    ghost predicate InString(n: nat)
    {
      value.None? || n <= |value.value|
    }

    /** The padding bytes: the configured value from its start, or random bytes. */
    function Fill(n: nat, random: seq<Octet>): (s: seq<Octet>)
      requires InString(n) && n <= |random|
      ensures |s| == n
    {
      if value.None? then random[..n] else value.value[..n]
    }

    /** A padded packet. */
    function Seal(byte: Octet, random: seq<Octet>, payload: seq<Octet>): (s: seq<Octet>)
      requires Valid() && InString(Size(byte)) && Size(byte) <= |random|
      ensures |s| == Header(byte) + |payload|
    {
      (if fixed then [] else [byte]) + Fill(Size(byte), random) + payload
    }

    predicate Matches(s: seq<Octet>)
      requires InString(|s|)
    {
      value.None? || s == value.value[..|s|]
    }

    /** What a receiver skips: for random lengths one more than the padding, in eight bits. */
    function Skip(byte: Octet): Octet
      requires min <= max
    {
      if fixed then size else (Size(byte) + 1) % 256
    }

    function Open(packet: seq<Octet>): Stripped
      requires Valid() && (fixed ==> InString(size))
    {
      if packet == [] then WrongLength else
      var n := Skip(packet[0]);
      if fixed && n < |packet| && !Matches(packet[..n]) then WrongPad
      else if n >= |packet| then WrongLength
      else Payload(packet[n..])
    }
  }

  datatype Stripped = Payload(data: seq<Octet>) | WrongPad | WrongLength

  /**
   Stripping undoes padding exactly when there is a payload and the eight-bit length does not wrap;
   a wrapped length leaves the padding in place.
   */
  lemma {:induction false} StripUndoesPad(p: Padding, byte: Octet, random: seq<Octet>, payload: seq<Octet>)
    requires p.Valid() && p.InString(p.Size(byte)) && p.Size(byte) <= |random|
    ensures p.Open(p.Seal(byte, random, payload)) == Payload(payload)
       <==> payload != [] && (p.fixed || p.Size(byte) < 255)
  {
    var packet, n := p.Seal(byte, random, payload), p.Size(byte);
    if packet != [] {
      if p.fixed {
        assert packet[..n] == p.Fill(n, random);
        assert packet[n..] == payload;
      } else {
        assert packet[0] == byte;
        assert packet[n + 1..] == payload;
      }
    }
  }

  lemma {:induction false} SizeBound(p: Padding, byte: Octet)
    requires p.Valid()
    ensures p.Size(byte) <= if p.fixed then p.size else p.max
    ensures !p.fixed ==> p.Size(byte) == p.min + byte % (p.max - p.min + 1)
    ensures !p.fixed ==> p.Size(p.max - p.min) == p.max
  {
    var k: int := p.max - p.min;
    DivModUnique(k, k + 1, 0, k);
    Remainder(byte, k + 1);
  }

  lemma {:induction false} Remainder(x: int, m: int)
    requires m > 0
    ensures 0 <= x % m < m
  {
  }

  /** The largest padding is reached, so all draws are undone iff the maximum leaves room for the length byte. */
  lemma {:induction false} StripUndoesEveryPad(p: Padding, payload: seq<Octet>)
    requires p.Valid() && payload != [] && p.InString(if p.fixed then p.size else p.max)
    ensures (forall byte: Octet, random: seq<Octet> :: |random| == 255 ==> Undone(p, byte, random, payload))
       <==> p.fixed || p.max <= 254
  {
    hide Padding.Open, Padding.Seal, Padding.Size, Undone;
    forall byte: Octet, random: seq<Octet> | |random| == 255
      ensures Undone(p, byte, random, payload) <==> p.fixed || p.Size(byte) < 255
      ensures !p.fixed ==> p.Size(byte) <= p.max
    {
      SizeBound(p, byte);
      UndoneIff(p, byte, random, payload);
    }
    if !p.fixed && p.max == 255 {
      var random: seq<Octet> := seq(255, _ => 0);
      SizeBound(p, p.max - p.min);
      assert !Undone(p, p.max - p.min, random, payload);
    }
  }

  /** One draw can be padded, and stripping gives the payload back. */
  ghost predicate Undone(p: Padding, byte: Octet, random: seq<Octet>, payload: seq<Octet>)
    requires p.Valid()
  {
    && p.InString(p.Size(byte)) && p.Size(byte) <= |random|
    && p.Open(p.Seal(byte, random, payload)) == Payload(payload)
  }

  lemma {:induction false} UndoneIff(p: Padding, byte: Octet, random: seq<Octet>, payload: seq<Octet>)
    requires p.Valid() && payload != [] && p.InString(if p.fixed then p.size else p.max) && |random| == 255
    ensures Undone(p, byte, random, payload) <==> p.fixed || p.Size(byte) < 255
  {
    hide Padding.Open, Padding.Seal, Padding.Size;
    SizeBound(p, byte);
    StripUndoesPad(p, byte, random, payload);
  }

  /** With fixed padding nothing else is stripped: the packet is a padded one, the configured value included. */
  lemma {:induction false} FixedOpensIff(p: Padding, packet: seq<Octet>, d: seq<Octet>)
    requires p.Valid() && p.fixed && p.InString(p.size)
    ensures p.Open(packet) == Payload(d)
       <==> d != [] && exists random: seq<Octet> :: |random| == 255 && packet == p.Seal(0, random, d)
  {
    var n := p.size;
    if p.Open(packet) == Payload(d) {
      var random := packet[..n] + seq(255 - n, _ => 0);
      assert random[..n] == packet[..n];
      assert packet == packet[..n] + packet[n..];
      assert packet == p.Seal(0, random, d);
    } else {
      forall random: seq<Octet> | |random| == 255 && packet == p.Seal(0, random, d) ensures d == [] {
        StripUndoesPad(p, 0, random, d);
      }
    }
  }

  /**
   With random padding the first byte alone decides: that many bytes and one more are stripped, or none if it
   wraps.
   */
  lemma {:induction false} RandomOpens(p: Padding, packet: seq<Octet>)
    requires p.Valid() && !p.fixed && packet != []
    ensures var n := p.Size(packet[0]);
            p.Open(packet) == if n == 255 then Payload(packet)
                              else if |packet| <= n + 1 then WrongLength else Payload(packet[n + 1..])
  {
    hide Padding.Size;
    assert packet[0..] == packet;
  }

  /** The padding of a sealed packet lies in front of the payload, behind the length byte if there is one. */
  lemma {:induction false} SealLayout(p: Padding, byte: Octet, random: seq<Octet>, payload: seq<Octet>)
    requires p.Valid() && p.InString(p.Size(byte)) && p.Size(byte) <= |random|
    ensures var s, n, h := p.Seal(byte, random, payload), p.Size(byte), p.Header(byte);
            && h == (if p.fixed then n else n + 1) && (!p.fixed ==> s[0] == byte)
            && s[h - n..h] == (if p.value.Some? then p.value.value[..n] else random[..n]) && s[h..] == payload
  {
    hide Padding.Size;
  }

  /** The declared overhead is reached. */
  lemma {:induction false} OverheadReached(p: Padding)
    requires p.Valid()
    ensures exists byte: Octet :: p.Header(byte) == p.Overhead()
  {
    hide Padding.Size;
    SizeBound(p, p.max - p.min);
    assert p.Header(p.max - p.min) == p.Overhead();
  }

  // ----- in place

  /** pad_fill; j restarts when the byte behind position i ends the value. */
  method PadFill(p: Padding, buf: array<Octet>, at: nat, n: nat, random: seq<Octet>)
    requires p.Valid() && p.InString(n) && n <= |random| && at + n <= buf.Length
    modifies buf
    ensures buf[at..at + n] == p.Fill(n, random)
    ensures ChangedOnly(buf, at, n)
  {
    if p.value.None? {
      forall k | 0 <= k < n { buf[at + k] := random[k]; }
      return;
    }
    var value := p.value.value + [0];
    var i, j := 0, 0;
    while i < n
      invariant 0 <= i <= n && (i < |p.value.value| ==> j == i)
      invariant buf[at..at + i] == value[..i]
      invariant ChangedOnly(buf, at, i)
    {
      buf[at + i] := value[j];
      j := if i + 1 == |p.value.value| then 0 else j + 1;
      i := i + 1;
    }
  }

  /** pad_check. */
  method PadCheck(p: Padding, buf: array<Octet>, at: nat, n: nat) returns (ok: bool)
    requires p.Valid() && p.InString(n) && at + n <= buf.Length
    ensures ok == p.Matches(buf[at..at + n])
  {
    if p.value.None? { return true; }
    var i, j := 0, 0;
    while i < n
      invariant 0 <= i <= n && (i < |p.value.value| ==> j == i)
      invariant buf[at..at + i] == p.value.value[..i]
    {
      if buf[at + i] != p.value.value[j] {
        assert buf[at..at + n][i] != p.value.value[..n][i];
        return false;
      }
      j := if i + 1 == |p.value.value| then 0 else j + 1;
      i := i + 1;
    }
    return true;
  }

  /** pad_encode: the padding grows downwards in front of the payload. */
  method PadEncode(p: Padding, buf: array<Octet>, pos: nat, size: nat, byte: Octet, random: seq<Octet>)
    returns (pos': nat, size': nat)
    requires p.Valid() && p.InString(p.Size(byte)) && p.Size(byte) <= |random|
    requires p.Header(byte) <= pos && pos + size <= buf.Length
    modifies buf
    ensures pos' == pos - p.Header(byte) && size' == size + p.Header(byte)
    ensures buf[pos'..pos' + size'] == p.Seal(byte, random, old(buf[pos..pos + size]))
    ensures ChangedOnly(buf, pos', size')
  {
    hide ChangedOnly;
    var n := p.Size(byte);
    pos', size' := pos - n, size + n;
    if !p.fixed {
      pos', size' := pos' - 1, size' + 1;
    }
    PadWrite(p, buf, pos', pos - n, pos, size, byte, random);
  }

  /** What stands in front of the payload: the length byte, if there is one, then the fill. */
  method PadFront(p: Padding, buf: array<Octet>, at: nat, pad: nat, pos: nat, byte: Octet, random: seq<Octet>)
    requires p.Valid() && p.InString(p.Size(byte)) && p.Size(byte) <= |random| && pos <= buf.Length
    requires pad + p.Size(byte) == pos && pad == (if p.fixed then at else at + 1)
    modifies buf
    ensures buf[at..pos] == (if p.fixed then [] else [byte]) + p.Fill(p.Size(byte), random)
    ensures ChangedOnly(buf, at, pos - at)
  {
    hide Padding.Size, Padding.Fill;
    var n := p.Size(byte);
    ghost var front: seq<Octet> := if p.fixed then [] else [byte];
    if !p.fixed { buf[at] := byte; }
    PadFill(p, buf, pad, n, random);
    assert buf[at..pad] == front;
    assert buf[at..pos] == buf[at..pad] + buf[pad..pos];
  }

  /** The padding written between at and pos. */
  method PadWrite(p: Padding, buf: array<Octet>, at: nat, pad: nat, pos: nat, size: nat, byte: Octet,
      random: seq<Octet>)
    requires p.Valid() && p.InString(p.Size(byte)) && p.Size(byte) <= |random| && pos + size <= buf.Length
    requires pad + p.Size(byte) == pos && pad == (if p.fixed then at else at + 1)
    modifies buf
    ensures buf[at..pos + size] == p.Seal(byte, random, old(buf[pos..pos + size]))
    ensures ChangedOnly(buf, at, pos + size - at)
  {
    hide Padding.Size, Padding.Fill;
    var end := pos + size;
    ghost var payload := buf[pos..end];
    PadFront(p, buf, at, pad, pos, byte, random);
    assert buf[pos..end] == payload;
    assert buf[at..end] == buf[at..pos] + buf[pos..end];
  }

  /** pad_decode: moves behind the padding, or reports why not. */
  method PadDecode(p: Padding, buf: array<Octet>, pos: nat, size: nat) returns (r: Stripped, pos': nat, size': nat)
    requires p.Valid() && (p.fixed ==> p.InString(p.size)) && pos + size <= buf.Length && pos < buf.Length
    ensures r == p.Open(buf[pos..pos + size])
    ensures r.Payload? ==> pos <= pos' <= pos + p.Overhead() && pos' + size' == pos + size && size' > 0
    ensures r.Payload? ==> buf[pos'..pos' + size'] == r.data
    ensures !r.Payload? ==> pos' == pos && size' == size
  {
    pos', size' := pos, size;
    ghost var packet := buf[pos..pos + size];
    var n := p.Skip(buf[pos]);
    assert packet != [] ==> packet[0] == buf[pos];
    if p.fixed && n < size {
      assert packet[..n] == buf[pos..pos + n];
      var ok := PadCheck(p, buf, pos, n);
      if !ok { return WrongPad, pos, size; }
    }
    if n >= size { return WrongLength, pos, size; }
    pos', size' := pos + n, size - n;
    assert packet[n..] == buf[pos'..pos' + size'];
    r := Payload(buf[pos'..pos' + size']);
  }
}
