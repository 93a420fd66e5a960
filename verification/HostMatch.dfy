/** Finding the last Host header of an HTTP request in one pass, and choosing the split point. */
module HostMatch {
  import opened Bytes

  const CR: Octet := 13

  /** CR LF "host: ". */
  const PATTERN: seq<Octet> := [13, 10, 104, 111, 115, 116, 58, 32]

  function Lower(c: Octet): Octet
  {
    if 65 <= c <= 90 then c + 32 else c
  }

  /** The byte at i; the program may look at one byte behind the data. */
  function At(data: seq<Octet>, extra: Octet, i: nat): Octet
  {
    if i < |data| then data[i] else extra
  }

  // ----- naive search

  /** The first n pattern bytes stand at k, whatever their case. */
  predicate Stands(data: seq<Octet>, k: nat, n: nat)
    requires n <= 8
  {
    k + n <= |data| && forall j :: 0 <= j < n ==> Lower(data[k + j]) == PATTERN[j]
  }

  /** They end at p. */
  predicate Ends(data: seq<Octet>, p: nat, n: nat)
    requires n <= 8
  {
    n <= p && Stands(data, p - n, n)
  }

  /** A host name can start at p: a whole header name ends there, and no CR follows. */
  predicate HostAt(data: seq<Octet>, extra: Octet, p: nat)
  {
    Ends(data, p, 8) && At(data, extra, p) != CR
  }

  /** Two bytes that are the same, or one letter in two cases. */
  predicate SameButCase(a: Octet, b: Octet)
  {
    a == b || (65 <= a <= 90 && b == a + 32) || (65 <= b <= 90 && a == b + 32)
  }

  /** Header names match whatever their case, and nothing else matches. */
  lemma {:induction false} CaseDoesNotMatter(data: seq<Octet>, k: nat)
    requires k + 8 <= |data|
    ensures Stands(data, k, 8) <==> forall j :: 0 <= j < 8 ==> SameButCase(data[k + j], PATTERN[j])
  {
    forall j | 0 <= j < 8 ensures Lower(data[k + j]) == PATTERN[j] <==> SameButCase(data[k + j], PATTERN[j]) {
    }
    if Stands(data, k, 8) {
      forall j | 0 <= j < 8 ensures SameButCase(data[k + j], PATTERN[j]) {
        assert Lower(data[k + j]) == PATTERN[j];
      }
    }
  }

  // ----- the automaton

  /** state is the length of the only part of the pattern that ends at i. */
  ghost predicate Tracks(data: seq<Octet>, i: nat, state: nat)
  {
    && state <= 8 && i <= |data| && Ends(data, i, state)
    && forall n :: 0 < n < 8 && n != state ==> !Ends(data, i, n)
  }

  lemma {:induction false} EndsNext(data: seq<Octet>, p: nat, n: nat)
    requires n < 8 && p < |data|
    ensures Ends(data, p + 1, n + 1) <==> Ends(data, p, n) && Lower(data[p]) == PATTERN[n]
  {
    if Ends(data, p + 1, n + 1) {
      var k := p - n;
      assert Lower(data[k + n]) == PATTERN[n];
    }
  }

  /** CR opens the pattern and occurs nowhere else in it. */
  lemma {:induction false} OnlyFirstIsCr(c: Octet, n: nat)
    requires n < 8
    ensures c == CR ==> (Lower(c) == PATTERN[n] <==> n == 0)
    ensures Lower(c) == PATTERN[0] <==> c == CR
  {
  }

  /** The state after one more byte. */
  function Step(c: Octet, state: nat): (t: nat)
    requires state < 8
    ensures t <= 8
  {
    if Lower(c) == PATTERN[state] then state + 1 else if c == CR then 1 else 0
  }

  lemma {:induction false} StepTracks(data: seq<Octet>, i: nat, state: nat)
    requires i < |data| && state < 8 && Tracks(data, i, state)
    ensures Tracks(data, i + 1, Step(data[i], state))
    ensures Step(data[i], state) == 8 <==> Ends(data, i + 1, 8)
  {
    hide Ends, Lower, PATTERN;
    var c := data[i];
    var t := Step(c, state);
    OnlyFirstIsCr(c, state);
    OnlyFirstIsCr(c, 0);
    EmptyEnds(data, i);
    EmptyEnds(data, i + 1);
    EndsNext(data, i, 0);
    EndsNext(data, i, state);
    EndsNext(data, i, 7);
    var e := i + 1;
    forall n | 0 < n < 8 && n != t ensures !Ends(data, e, n) {
      OnlyFirstIsCr(c, n - 1);
      EndsNext(data, i, n - 1);
    }
  }

  lemma {:induction false} EmptyEnds(data: seq<Octet>, k: nat)
    requires k <= |data|
    ensures Ends(data, k, 0)
  {
  }

  /** After a whole match the automaton restarts; nothing shorter ends there. */
  lemma {:induction false} Restart(data: seq<Octet>, i: nat)
    requires Tracks(data, i, 8)
    ensures Tracks(data, i, 0)
  {
    hide Ends;
    EmptyEnds(data, i);
  }

  /** The inner loop: up to the next whole header name, or to the end. */
  method Scan(data: seq<Octet>, from: nat) returns (i: nat, state: nat)
    requires from < |data| && Tracks(data, from, 0)
    ensures from < i <= |data| && Tracks(data, i, state) && (state == 8 || i == |data|)
    ensures state == 8 ==> Ends(data, i, 8)
    ensures forall p :: from < p <= i && Ends(data, p, 8) ==> p == i && state == 8
  {
    hide Tracks, Ends, Step;
    i, state := from, 0;
    while i < |data| && state < 8
      invariant from <= i <= |data| && state <= 8 && Tracks(data, i, state)
      invariant i == from ==> state == 0
      invariant state == 8 ==> Ends(data, i, 8)
      invariant forall p :: from < p <= i && Ends(data, p, 8) ==> p == i && state == 8
    {
      StepTracks(data, i, state);
      state := Step(data[i], state);
      i := i + 1;
    }
  }

  /** http_url_match: the last place where a host name can start, exactly as naive search finds it. */
  method LastHost(data: seq<Octet>, extra: Octet) returns (found: bool, start: nat)
    ensures found ==> HostAt(data, extra, start) && start <= |data|
    ensures forall p :: 0 <= p <= |data| && HostAt(data, extra, p) ==> found && p <= start
  {
    hide Tracks, Ends;
    found, start := false, 0;
    var i := 0;
    AtStart(data);
    while i < |data|
      invariant 0 <= i <= |data| && (i < |data| ==> Tracks(data, i, 0))
      invariant found ==> HostAt(data, extra, start) && start <= i
      invariant forall p :: 0 <= p <= i && HostAt(data, extra, p) ==> found && p <= start
    {
      var state;
      i, state := Scan(data, i);
      if state == 8 && At(data, extra, i) != CR {
        found, start := true, i;
      }
      if state == 8 { Restart(data, i); }
    }
  }

  lemma {:induction false} AtStart(data: seq<Octet>)
    ensures Tracks(data, 0, 0) && !Ends(data, 0, 8)
  {
  }

  /** The length of the host name at start: up to the next CR or the end of the data. */
  function HostLength(data: seq<Octet>, start: nat): (n: nat)
    requires start <= |data|
    ensures start + n <= |data| && (start + n == |data| || data[start + n] == CR)
    ensures forall k :: start <= k < start + n ==> data[k] != CR
    decreases |data| - start
  {
    if start < |data| && data[start] != CR then 1 + HostLength(data, start + 1) else 0
  }

  /** start is the last place where a host name can start. */
  ghost predicate IsLastHost(data: seq<Octet>, extra: Octet, start: nat)
  {
    && start <= |data| && HostAt(data, extra, start)
    && forall p :: 0 <= p <= |data| && HostAt(data, extra, p) ==> p <= start
  }

  /** The end that http_url_match reports: behind the host name, or one lower when a CR follows. */
  function HostStop(data: seq<Octet>, extra: Octet, start: nat): int
    requires start <= |data|
  {
    var n := HostLength(data, start);
    if At(data, extra, start + n) == CR then start + n - 1 else start + n
  }

  method UrlMatch(data: seq<Octet>, extra: Octet) returns (found: bool, start: nat, end: nat)
    ensures found <==> exists p :: 0 <= p <= |data| && HostAt(data, extra, p)
    ensures found ==> IsLastHost(data, extra, start) && end == HostStop(data, extra, start)
  {
    hide HostAt;
    end := 0;
    found, start := LastHost(data, extra);
    if !found { return; }
    NotCr(data, extra, start);
    var i := start;
    while i < |data| && data[i] != CR
      invariant start <= i <= |data|
      invariant HostLength(data, start) == (i - start) + HostLength(data, i)
      invariant i == start ==> At(data, extra, i) != CR
    {
      i := i + 1;
    }
    end := if At(data, extra, i) == CR then i - 1 else i;
  }

  lemma {:induction false} StopAfterStart(data: seq<Octet>, extra: Octet, start: nat)
    requires start <= |data| && HostAt(data, extra, start)
    ensures start <= HostStop(data, extra, start)
  {
  }

  lemma {:induction false} NotCr(data: seq<Octet>, extra: Octet, p: nat)
    requires HostAt(data, extra, p)
    ensures At(data, extra, p) != CR
  {
  }

  // ----- the split point

  /** split_hash: the bytes of the packet hash folded by exclusive or. */
  function SplitHash(h: bv64): bv8
  {
    var h32 := ((h & 0xFFFF_FFFF) as bv32) ^ ((h >> 32) as bv32);
    var h16 := ((h32 & 0xFFFF) as bv16) ^ ((h32 >> 16) as bv16);
    ((h16 & 0xFF) as bv8) ^ ((h16 >> 8) as bv8)
  }

  /** It is the exclusive or of all eight bytes, so every bit of the hash counts. */
  lemma {:induction false} SplitHashFolds(h: bv64)
    ensures SplitHash(h) as bv64
         == (h ^ (h >> 8) ^ (h >> 16) ^ (h >> 24) ^ (h >> 32) ^ (h >> 40) ^ (h >> 48) ^ (h >> 56)) & 0xFF
  {
  }

  /** The partial split of packet_dispatch. */
  function PartialSplit(start: nat, end: nat, rand: Octet): nat
    requires start <= end
  {
    var range := end - start;
    var room := if range < 4 then 0 else range - 3;
    start + 1 + rand % (room + 1)
  }

  /** Every point behind the first byte and at least three before the reported end is chosen for some hash byte. */
  lemma {:induction false} SplitReaches(start: nat, end: nat, at: nat)
    requires start + 4 <= end && start < at <= end - 2 && at - start <= 256
    ensures PartialSplit(start, end, at - start - 1) == at
  {
  }

  /**
   For a non-empty host the split lies behind its first byte and not past its end, and before its last byte if it has
   two or more; for an empty one, past the data.
   */
  lemma {:induction false} SplitInsideHost(data: seq<Octet>, extra: Octet, start: nat, packetHash: bv64)
    requires start <= |data| && HostAt(data, extra, start)
    ensures var n, rand, end := HostLength(data, start), SplitHash(packetHash) as int, HostStop(data, extra, start);
            && start <= end
            && (n > 0 ==> start < PartialSplit(start, end, rand) <= start + n)
            && (n > 1 ==> PartialSplit(start, end, rand) < start + n)
            && (n == 0 ==> start == |data| && PartialSplit(start, end, rand) == |data| + 1)
  {
  }
}
