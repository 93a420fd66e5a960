/**
 The stateless server's session keys. Keys are derived from one of two generators; a manager thread
 overwrites the older generator once an hour. Requests are served by other threads at any time.
 */
module SessionKeys {
  import opened Common
  import opened Arith
  import opened Digits
  import opened Bytes
  import opened Ctr
  import opened CryptPacket

  const TIMEOUT: nat := 3600000        // 60 minutes
  const BUFF: nat := 60000             // 60 seconds
  const MIN_TIMEOUT: nat := 300000     // 5 minutes
  const MAX_TIMEOUT: nat := 86400000   // 1 day

  // ----- the rotation of generators

  /** Where the manager thread stands: asleep, awake with the old generator overwritten, or switched over. */
  datatype Phase = Sleeping | Woken | Flipped

  /** Times in milliseconds; gens are the contents of the two generator slots. */
  datatype State = State(now: nat, phase: Phase, idx: nat, genTimeout: nat, gens: seq<nat>)

  datatype Event = Tick(ms: nat) | Wake(gen: nat) | Flip | Rearm

  ghost predicate Start(s: State)
  {
    s.phase.Sleeping? && s.idx < 2 && |s.gens| == 2 && s.genTimeout == s.now + TIMEOUT
  }

  /** The sleep lasts at least an hour and overshoots by less than 60 seconds. */
  ghost predicate Enabled(s: State, e: Event)
  {
    match e
    case Tick(ms) => s.now + ms < s.genTimeout + BUFF
    case Wake(_) => s.phase.Sleeping? && s.genTimeout <= s.now
    case Flip => s.phase.Woken?
    case Rearm => s.phase.Flipped?
  }

  ghost function Apply(s: State, e: Event): State
    requires s.idx < 2 && |s.gens| == 2
  {
    match e
    case Tick(ms) => s.(now := s.now + ms)
    case Wake(gen) => s.(phase := Woken, gens := s.gens[1 - s.idx := gen])
    case Flip => s.(phase := Flipped, idx := 1 - s.idx)
    case Rearm => s.(phase := Sleeping, genTimeout := s.now + TIMEOUT)
  }

  ghost predicate Inv(s: State)
  {
    && s.idx < 2 && |s.gens| == 2 && s.now < s.genTimeout + BUFF && s.genTimeout <= s.now + TIMEOUT
    && (s.phase.Sleeping? || s.genTimeout <= s.now)
  }

  lemma {:induction false} StepKeepsInv(s: State, e: Event)
    requires Inv(s) && Enabled(s, e)
    ensures Inv(Apply(s, e))
  {
  }

  ghost predicate Runs(s: State, es: seq<Event>)
    requires Inv(s)
    decreases es
  {
    es == [] || (Enabled(s, es[0]) && (StepKeepsInv(s, es[0]); Runs(Apply(s, es[0]), es[1..])))
  }

  ghost function Exec(s: State, es: seq<Event>): (t: State)
    requires Inv(s) && Runs(s, es)
    ensures Inv(t)
    decreases es
  {
    if es == [] then s else StepKeepsInv(s, es[0]); Exec(Apply(s, es[0]), es[1..])
  }

  /** Every start state satisfies the invariant, and so does every state reached from one. */
  lemma {:induction false} StartReaches(s: State, es: seq<Event>)
    requires Start(s)
    ensures Inv(s)
    ensures Runs(s, es) ==> Inv(Exec(s, es))
  {
  }

  /** Time goes on, and re-arming moves the timeout by more than an hour, to an hour from then. */
  lemma {:induction false} Later(s: State, es: seq<Event>)
    requires Inv(s) && Runs(s, es)
    ensures var t := Exec(s, es);
            && s.now <= t.now && s.genTimeout <= t.genTimeout
            && (t.genTimeout > s.genTimeout ==>
                  t.genTimeout >= s.now + TIMEOUT && t.genTimeout >= s.genTimeout + TIMEOUT)
    decreases es
  {
    if es == [] {
    } else {
      StepKeepsInv(s, es[0]);
      Later(Apply(s, es[0]), es[1..]);
    }
  }

  // ----- issuing a key

  /** The timeout a key request is answered with, in the program's unsigned 64-bit arithmetic. */
  function IssuedTimeout(genTimeout: nat, now: nat, rand: nat): nat
  {
    var t := (genTimeout - now + BUFF + rand % (TIMEOUT - 2 * BUFF)) % M64;
    if t <= MIN_TIMEOUT + BUFF
    then MIN_TIMEOUT + BUFF + (M64 - 1 - rand) % (TIMEOUT - MIN_TIMEOUT - 2 * BUFF)
    else t
  }

  /**
   A request reads the generator index, then the clock, then gen_timeout, and derives the key last; the manager and
   the clock may move between any two of these.
   */
  datatype Reads = Reads(index: State, es1: seq<Event>, es2: seq<Event>, es3: seq<Event>, rand: nat)
  {
    ghost predicate Valid()
    {
      && Inv(index) && Runs(index, es1) && Runs(Clock(), es2) && Runs(Limit(), es3) && rand < M64
      && Limit().genTimeout + TIMEOUT < M64
    }

    /** The state in which the clock is read. */
    ghost function Clock(): (s: State)
      requires Inv(index) && Runs(index, es1)
      ensures Inv(s)
    {
      Exec(index, es1)
    }

    /** The state in which gen_timeout is read. */
    ghost function Limit(): (s: State)
      requires Inv(index) && Runs(index, es1) && Runs(Clock(), es2)
      ensures Inv(s)
    {
      Exec(Clock(), es2)
    }

    /** The state in which the key is derived. */
    ghost function Derived(): (s: State)
      requires Valid()
      ensures Inv(s)
    {
      Exec(Limit(), es3)
    }

    ghost function Slot(): nat { index.idx }

    ghost function Timeout(): nat
      requires Valid()
    {
      IssuedTimeout(Limit().genTimeout, Clock().now, rand)
    }

    /** Until when the key is needed: the timeout counted from the clock read, plus the margin. */
    ghost function Deadline(): nat
      requires Valid()
    {
      Clock().now + Timeout() + BUFF
    }
  }

  /** Between the clock and the gen_timeout read: the longest delay that cannot push a timeout out of range. */
  const STALL: nat := MAX_TIMEOUT - 2 * TIMEOUT + BUFF

  /**
   The issued timeout is never too short. It is one the client accepts iff the sum does not exceed a day, and so
   whenever the two reads are at most 22 hours apart.
   */
  lemma {:induction false} TimeoutInRange(r: Reads)
    requires r.Valid()
    ensures var sum := r.Limit().genTimeout - r.Clock().now + BUFF + r.rand % (TIMEOUT - 2 * BUFF);
            && MIN_TIMEOUT <= r.Timeout() && (r.Timeout() <= MAX_TIMEOUT <==> sum <= MAX_TIMEOUT)
            && (sum > MIN_TIMEOUT + BUFF ==> r.Timeout() == sum)
            && (sum <= MIN_TIMEOUT + BUFF ==>
                  && r.Timeout() == 360000 + (M64 - 1 - r.rand) % 3180000
                  && MIN_TIMEOUT + BUFF <= r.Timeout() < TIMEOUT - BUFF)
    ensures r.Limit().now - r.Clock().now <= STALL ==> r.Timeout() <= MAX_TIMEOUT < M32
  {
    var b, c := r.Clock(), r.Limit();
    Later(b, r.es2);
    SumInRange(c.genTimeout, b.now, r.rand);
  }

  lemma {:induction false} SumInRange(genTimeout: nat, now: nat, rand: nat)
    requires now < genTimeout + BUFF && genTimeout + TIMEOUT < M64 && rand < M64
    ensures var sum, t := genTimeout - now + BUFF + rand % (TIMEOUT - 2 * BUFF), IssuedTimeout(genTimeout, now, rand);
            && 0 < sum < M64
            && (sum > MIN_TIMEOUT + BUFF ==> t == sum)
            && (sum <= MIN_TIMEOUT + BUFF ==>
                  t == 360000 + (M64 - 1 - rand) % 3180000 && MIN_TIMEOUT + BUFF <= t < TIMEOUT - BUFF)
  {
    var sum := genTimeout - now + BUFF + rand % (TIMEOUT - 2 * BUFF);
    DivModUnique(sum, M64, 0, sum);
  }

  /** No key of this slot is lost before the deadline, whatever the manager does. */
  ghost predicate Survives(s: State, slot: nat, deadline: nat)
    requires Inv(s) && slot < 2
  {
    forall es :: Runs(s, es) ==>
      var t := Exec(s, es);
      t.now < deadline ==> t.gens[slot] == s.gens[slot]
  }

  /** The earliest time at which a slot can be overwritten. */
  ghost function Earliest(s: State, slot: nat): nat
    requires Inv(s) && slot < 2
  {
    var wake := if s.now < s.genTimeout then s.genTimeout else s.now;
    match s.phase
    case Sleeping => if slot == s.idx then wake + TIMEOUT else wake
    case Woken => if slot == s.idx then s.now + TIMEOUT else s.now + 2 * TIMEOUT
    case Flipped => if slot == s.idx then s.now + 2 * TIMEOUT else s.now + TIMEOUT
  }

  lemma {:induction false} SafeUntilEarliest(s: State, slot: nat, es: seq<Event>, until: nat)
    requires Inv(s) && slot < 2 && Runs(s, es) && until <= Earliest(s, slot)
    ensures Exec(s, es).now < until ==> Exec(s, es).gens[slot] == s.gens[slot]
    decreases es
  {
    if es == [] {
    } else {
      StepKeepsInv(s, es[0]);
      var t := Apply(s, es[0]);
      if until <= Earliest(t, slot) && t.gens[slot] == s.gens[slot] {
        SafeUntilEarliest(t, slot, es[1..], until);
      } else {
        assert until <= t.now;
        Later(t, es[1..]);
      }
    }
  }

  /**
   The key of an accepted timeout survives until the deadline exactly when, at its derivation, the index read is
   current, or the manager is between waking and re-arming, or it has re-armed since gen_timeout was read.
   */
  lemma {:induction false} KeySurvivesIff(r: Reads)
    requires r.Valid() && r.Timeout() <= MAX_TIMEOUT
    ensures var d := r.Derived();
            Survives(d, r.Slot(), r.Deadline())
            <==> r.Slot() == d.idx || !d.phase.Sleeping? || d.genTimeout != r.Limit().genTimeout
  {
    var b, c, d, slot := r.Clock(), r.Limit(), r.Derived(), r.Slot();
    TimeoutInRange(r);
    Later(b, r.es2);
    Later(c, r.es3);
    if slot == d.idx || !d.phase.Sleeping? || d.genTimeout != c.genTimeout {
      assert r.Deadline() <= Earliest(d, slot);
      forall es | Runs(d, es)
        ensures var t := Exec(d, es);
                t.now < r.Deadline() ==> t.gens[slot] == d.gens[slot]
      {
        SafeUntilEarliest(d, slot, es, r.Deadline());
      }
    } else {
      OverwrittenEarly(d, slot, r.Deadline());
    }
  }

  lemma {:induction false} OverwrittenEarly(s: State, slot: nat, deadline: nat)
    requires Inv(s) && slot < 2 && slot != s.idx && s.phase.Sleeping? && Earliest(s, slot) < deadline
    ensures !Survives(s, slot, deadline)
  {
    var ms := if s.now < s.genTimeout then s.genTimeout - s.now else 0;
    var e0, e1 := Tick(ms), Wake(s.gens[slot] + 1);
    var es := [e0, e1];
    var s1 := Apply(s, e0);
    StepKeepsInv(s, e0);
    assert es[1..] == [e1] && [e1][1..] == [];
    assert Runs(s1, [e1]);
    assert Runs(s, es);
    assert Exec(s, es) == Exec(s1, [e1]) == Apply(s1, e1);
  }

  /**
   It happens: a request that reads the index when the first sleep is over, and everything else just after the
   manager has turned over, holds a stale index, and its key is lost before the timeout.
   */
  lemma {:induction false} StaleIndexReachable(s: State, gen: nat, rand: nat) returns (es: seq<Event>, r: Reads)
    requires Start(s) && s.now + 3 * TIMEOUT < M64 && rand < M64
    ensures Runs(s, es) && r.index == Exec(s, es) && r.Valid()
    ensures r.rand == rand && r.Limit() == r.Clock() == r.Derived() && r.Clock().now == r.index.now == s.now + TIMEOUT
    ensures r.Slot() != r.Derived().idx && r.Timeout() <= MAX_TIMEOUT
    ensures !Survives(r.Derived(), r.Slot(), r.Deadline())
  {
    es := [Tick(TIMEOUT)];
    assert es[1..] == [] && Runs(Apply(s, es[0]), []);
    var a := Apply(s, Tick(TIMEOUT));
    assert Exec(s, es) == a;
    var b, c := Apply(a, Wake(gen)), Apply(Apply(a, Wake(gen)), Flip);
    var d := Apply(c, Rearm);
    var es1: seq<Event> := [Wake(gen), Flip, Rearm];
    assert es1[1..] == [Flip, Rearm] && es1[1..][1..] == [Rearm] && [Rearm][1..] == [];
    assert Runs(c, [Rearm]) && Exec(c, [Rearm]) == d;
    assert Runs(b, [Flip, Rearm]) && Exec(b, [Flip, Rearm]) == d;
    assert Runs(a, es1) && Exec(a, es1) == d;
    r := Reads(a, es1, [], [], rand);
    TimeoutInRange(r);
    KeySurvivesIff(r);
  }

  // ----- re-deriving the key

  /** crypt_key: the low 32 bits of the id pick the slot and are mixed into the source address. */
  function KeyFor(derive: (nat, nat) -> seq<Octet>, gens: seq<nat>, source: nat, id: nat): seq<Octet>
    requires |gens| == 2
  {
    derive(gens[id % M32 % 2], Xor(source, id % M32))
  }

  /** These generators turn different 32-bit inputs into different keys. */
  ghost predicate Injective(derive: (nat, nat) -> seq<Octet>, gens: seq<nat>)
  {
    forall g: nat, x: nat, g': nat, x': nat | g in gens && g' in gens && x < M32 && x' < M32 ::
      derive(g, x) == derive(g', x') ==> g == g' && x == x'
  }

  /**
   Two sessions share a key iff they are on generators with the same contents and their addresses and ids have the same
   exclusive or.
   */
  lemma {:induction false} SameKeyIff(derive: (nat, nat) -> seq<Octet>, gens: seq<nat>, source: nat, id: nat,
      source': nat, id': nat)
    requires Injective(derive, gens) && |gens| == 2 && source < M32 && source' < M32
    ensures KeyFor(derive, gens, source, id) == KeyFor(derive, gens, source', id')
       <==> gens[id % 2] == gens[id' % 2] && Xor(source, id % M32) == Xor(source', id' % M32)
  {
    hide Xor;
    LowBit(id);
    LowBit(id');
    MixFits(source, id % M32);
    MixFits(source', id' % M32);
  }

  lemma {:induction false} MixFits(x: nat, y: nat)
    requires x < M32 && y < M32
    ensures Xor(x, y) < M32
  {
    hide Xor;
    var k: nat := 32;
    assert Pow(2, k) == M32 by {
      assert Pow(2, 8) == 256;
      PowAdd(2, 8, 8);
      PowAdd(2, 16, 16);
    }
    XorBound(x, y, k);
  }

  /** One source never has the same key in two sessions whose ids differ in the 32 bits that count. */
  lemma {:induction false} SessionsHaveOwnKeys(derive: (nat, nat) -> seq<Octet>, gens: seq<nat>, source: nat, id: nat,
      id': nat)
    requires Injective(derive, gens) && |gens| == 2 && source < M32 && id % M32 != id' % M32
    ensures KeyFor(derive, gens, source, id) != KeyFor(derive, gens, source, id')
  {
    hide KeyFor;
    SameKeyIff(derive, gens, source, id, source, id');
    if Xor(source, id % M32) == Xor(source, id' % M32) { XorInjective(id % M32, id' % M32, source); }
  }

  /** Two sources never have the same key under one id. */
  lemma {:induction false} SourcesHaveOwnKeys(derive: (nat, nat) -> seq<Octet>, gens: seq<nat>, source: nat,
      source': nat,
      id: nat)
    requires Injective(derive, gens) && |gens| == 2 && source < M32 && source' < M32 && source != source'
    ensures KeyFor(derive, gens, source, id) != KeyFor(derive, gens, source', id)
  {
    hide KeyFor;
    SameKeyIff(derive, gens, source, id, source', id);
    if Xor(source, id % M32) == Xor(source', id % M32) { XorInjective(source, source', id % M32); }
  }

  /** Sessions on different generators have different keys, whatever their sources. */
  lemma {:induction false} GeneratorsHaveOwnKeys(derive: (nat, nat) -> seq<Octet>, gens: seq<nat>, source: nat, id: nat,
      source': nat, id': nat)
    requires Injective(derive, gens) && |gens| == 2 && source < M32 && source' < M32
    requires gens[0] != gens[1] && id % 2 != id' % 2
    ensures KeyFor(derive, gens, source, id) != KeyFor(derive, gens, source', id')
  {
    hide KeyFor;
    SameKeyIff(derive, gens, source, id, source', id');
  }

  lemma {:induction false} WireIdKeepsLowBits(pr: Params, id: nat)
    requires pr.Valid()
    ensures WireId(pr, id) % M32 == id % M32 && id % M32 % 2 == id % 2
  {
    hide Pow;
    var four: nat, more: nat := 4, pr.idSize - 4;
    FourBytes(four);
    PowAdd(256, more, four);
    PowPositive(256, more);
    LowHalf(id, Pow(256, more), Pow(256, pr.idSize));
    LowBit(id);
  }

  lemma {:induction false} LowHalf(id: nat, p: nat, r: nat)
    requires p > 0 && r == p * M32
    ensures r > 0 && id % r % M32 == id % M32
  {
    ModThenDiv(id, M32, p, r);
  }

  lemma {:induction false} LowBit(id: nat)
    ensures id % M32 % 2 == id % 2
  {
    AddMultiple(id % M32, id / M32 * (M32 / 2), 2);
    assert id == id % M32 + (id / M32 * (M32 / 2)) * 2;
  }

  lemma {:induction false} FourBytes(four: nat)
    requires four == 4
    ensures Pow(256, four) == M32
  {
  }

  /** The reads of a request whose key survives. */
  ghost predicate Safe(r: Reads)
  {
    && r.Valid() && r.Timeout() <= MAX_TIMEOUT
    && (r.Slot() == r.Derived().idx || !r.Derived().phase.Sleeping? || r.Derived().genTimeout != r.Limit().genTimeout)
  }

  /**
   From issue to expiry: a key issued to a safe request is derived again, from the truncated id on the wire, in every
   later state before the deadline, so every non-empty packet the client seals with it is opened by the server.
   */
  lemma {:induction false} IssuedKeyOpensPackets(pr: Params, derive: (nat, nat) -> seq<Octet>, source: nat,
      r: Reads, es: seq<Event>, id: nat, sn: nat, iv: Iv, payload: seq<Octet>)
    requires pr.Valid() && Safe(r) && id % 2 == r.Slot() && Runs(r.Derived(), es)
    requires Exec(r.Derived(), es).now < r.Deadline()
    requires |iv| == pr.ivSize && sn < M32 && payload != [] && WireId(pr, id) > MAX_RESERVED_ID
    ensures var issued, later := KeyFor(derive, r.Derived().gens, source, id), Exec(r.Derived(), es);
            ServerOpen(pr, (wire: nat) => KeyFor(derive, later.gens, source, wire),
                       ClientPacket(pr, pr.cipher.expand(issued), id, sn, iv, payload))
              == Payload(WireId(pr, id), payload)
  {
    hide ServerOpen, ClientPacket, Xor;
    var d, later := r.Derived(), Exec(r.Derived(), es);
    var keyOf := (wire: nat) => KeyFor(derive, later.gens, source, wire);
    KeySurvivesIff(r);
    WireIdKeepsLowBits(pr, id);
    assert keyOf(WireId(pr, id)) == KeyFor(derive, d.gens, source, id);
    ServerOpensClientPacket(pr, keyOf, id, sn, iv, payload);
  }
}
