/** Edits of byte buffers. */
module Buffers {
  import opened Bytes

  /** Only data[off..off+size] may have changed. */
  twostate predicate ChangedOnly(data: array<Octet>, off: nat, size: nat)
    reads data
  {
    forall k :: 0 <= k < data.Length && !(off <= k < off + size) ==> data[k] == old(data[k])
  }

  /** memmove of bytes to an offset. */
  method Put(buf: array<Octet>, off: nat, bytes: seq<Octet>)
    requires off + |bytes| <= buf.Length
    modifies buf
    ensures buf[off..off + |bytes|] == bytes && ChangedOnly(buf, off, |bytes|)
  {
    forall k | 0 <= k < |bytes| { buf[off + k] := bytes[k]; }
  }

  lemma {:induction false} SubSlice(s: seq<Octet>, a: nat, b: nat, i: nat, j: nat)
    requires a <= b <= |s| && i <= j <= b - a
    ensures s[a..b][i..j] == s[a + i..a + j]
  {
    var x, y := s[a..b][i..j], s[a + i..a + j];
    forall k | 0 <= k < j - i ensures x[k] == y[k] {
      assert x[k] == s[a..b][i + k] == s[a + (i + k)];
      assert y[k] == s[(a + i) + k];
    }
    assert x == y;
  }
}
