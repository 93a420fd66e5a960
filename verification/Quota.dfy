/** The rate limiter of key requests: counters per bucket, cleared after windows of random length. */
module Quota {
  import opened Common
  import opened Arith

  /** Requests in ms milliseconds at a rate per 1024 ms. */
  function PerSecond(rate: nat, ms: nat): nat
  {
    rate * ms / 1024
  }

  /** rps is the rate per 1024 ms that quota_init derives; a window lasts timeMin .. timeMax - 1 ms. */
  datatype Params = Params(rps: nat, timeMin: nat, timeMax: nat, buckets: nat)
  {
    ghost predicate Valid()
    {
      rps >= 1 && timeMin < timeMax && buckets > 0
    }

    /** The most requests that one bucket can accept within elapsed ms of a window, by the limit the program applies. */
    function Allowance(elapsed: nat, window: nat): nat
      requires rps >= 1
    {
      PerSecond(rps - 1, elapsed) + window / 1024 + 2
    }

    /** Its largest value for these parameters. */
    function PerWindow(): nat
      requires rps >= 1 && timeMax >= 1
    {
      Allowance(timeMax - 1, timeMax - 1)
    }

    /** Counters are 16 bits wide. */
    ghost predicate Fits()
      requires rps >= 1 && timeMax >= 1
    {
      PerWindow() < M16
    }
  }

  /** The allowance in numbers. */
  lemma {:induction false} AllowanceIs(p: Params, elapsed: nat, window: nat)
    requires p.rps >= 1
    ensures p.Allowance(elapsed, window) == (p.rps - 1) * elapsed / 1024 + window / 1024 + 2
  {
  }

  /** quota_init's rescaling from requests per second. */
  function EffectiveRate(rps: nat): nat
  {
    rps * 1024 / 1000
  }

  /** A rate per 1024 ms that does not exceed the rate per second, by less than one. */
  lemma {:induction false} RateRescaled(rps: nat)
    ensures EffectiveRate(rps) * 1000 <= rps * 1024 < (EffectiveRate(rps) + 1) * 1000
  {
  }

  /** The parameters of key requests, and why their counters cannot wrap. */
  const KEY_REQUESTS: Params := Params(EffectiveRate(8), 4000, 8000, 256)

  lemma {:induction false} KeyRequestsFit()
    ensures KEY_REQUESTS.Valid() && KEY_REQUESTS.Fits() && KEY_REQUESTS.PerWindow() == 63
  {
  }

  // ----- one request

  datatype State = State(start: nat, reset: nat, counts: seq<nat>)

  /** A request that arrives at a time and falls into a bucket; rand is drawn only when the window is over. */
  datatype Request = Request(time: nat, bucket: nat, rand: nat)

  function NewWindow(p: Params, e: Request): State
    requires p.timeMin < p.timeMax
  {
    State(e.time, e.time + e.rand % (p.timeMax - p.timeMin) + p.timeMin, seq(p.buckets, _ => 0))
  }

  function Window(p: Params, s: State, e: Request): State
    requires p.timeMin < p.timeMax
  {
    if e.time > s.reset then NewWindow(p, e) else s
  }

  function Limit(p: Params, s: State, time: nat): nat
    requires p.rps >= 1 && s.start <= time && s.start <= s.reset
  {
    PerSecond(p.rps - 1, time - s.start) + (s.reset - s.start) / 1024 + 1
  }

  /** What one request does to the counters, the window being settled. */
  function Count(p: Params, w: State, e: Request): (State, bool)
    requires p.rps >= 1 && |w.counts| == p.buckets && e.bucket < p.buckets && w.start <= e.time && w.start <= w.reset
  {
    var c := w.counts[e.bucket];
    if c == 0 then (w.(counts := w.counts[e.bucket := 1]), true)
    else if c <= Limit(p, w, e.time) then (w.(counts := w.counts[e.bucket := (c + 1) % M16]), true)
    else (w, false)
  }

  /** quota_check. */
  function Check(p: Params, s: State, e: Request): (State, bool)
    requires p.Valid() && |s.counts| == p.buckets && e.bucket < p.buckets
    requires e.time > s.reset || s.start <= e.time
  {
    Count(p, Window(p, s, e), e)
  }

  // ----- runs

  datatype Entry = Entry(time: nat, bucket: nat, accepted: bool, opening: bool)

  /** A tracker together with everything it has answered so far. */
  datatype History = History(s: State, log: seq<Entry>)

  function One(l: Entry, b: nat): nat
  {
    if l.bucket == b && l.accepted then 1 else 0
  }

  /** Requests accepted in bucket b since the current window opened. */
  function SinceReset(log: seq<Entry>, b: nat): nat
  {
    if log == [] then 0
    else
      var l := log[|log| - 1];
      if l.opening then One(l, b) else One(l, b) + SinceReset(log[..|log| - 1], b)
  }

  /** Requests ever accepted in bucket b. */
  function Total(log: seq<Entry>, b: nat): nat
  {
    if log == [] then 0 else One(log[|log| - 1], b) + Total(log[..|log| - 1], b)
  }

  function Windows(log: seq<Entry>): nat
  {
    if log == [] then 0 else (if log[|log| - 1].opening then 1 else 0) + Windows(log[..|log| - 1])
  }

  /** Between requests, at time now: every counter is the number of requests accepted, and within the allowance. */
  ghost predicate Inv(p: Params, h: History, now: nat)
  {
    && p.Valid() && |h.s.counts| == p.buckets
    && (h.log == [] ==> h.s.reset < now)
    && (h.log != [] ==>
          && h.s.start <= h.log[|h.log| - 1].time <= now && h.s.start + p.timeMin <= h.s.reset < h.s.start + p.timeMax
          && h.log[|h.log| - 1].time <= h.s.reset
          && Counted(p, h)
          && Rated(p, h))
  }

  ghost predicate Counted(p: Params, h: History)
    requires p.rps >= 1 && |h.s.counts| == p.buckets && h.log != []
    requires h.s.start <= h.log[|h.log| - 1].time && h.s.start <= h.s.reset
  {
    forall b :: 0 <= b < p.buckets ==>
      && h.s.counts[b] == SinceReset(h.log, b)
      && h.s.counts[b] <= p.Allowance(h.log[|h.log| - 1].time - h.s.start, h.s.reset - h.s.start)
  }

  /** Windows follow each other at least timeMin + 1 ms apart, and each earlier one is within its allowance. */
  ghost predicate Rated(p: Params, h: History)
    requires p.rps >= 1 && p.timeMax >= 1 && h.log != []
  {
    && Windows(h.log) >= 1 && (Windows(h.log) - 1) * (p.timeMin + 1) <= h.s.start - h.log[0].time
    && forall b :: 0 <= b < p.buckets ==> Total(h.log, b) <= (Windows(h.log) - 1) * p.PerWindow() + SinceReset(h.log, b)
  }

  ghost function Serve(p: Params, h: History, e: Request): History
    requires p.Valid() && |h.s.counts| == p.buckets && e.bucket < p.buckets
    requires e.time > h.s.reset || h.s.start <= e.time
  {
    var (s, ok) := Check(p, h.s, e);
    History(s, h.log + [Entry(e.time, e.bucket, ok, e.time > h.s.reset)])
  }

  lemma {:induction false} AllowanceGrows(p: Params, e1: nat, e2: nat, w1: nat, w2: nat)
    requires p.rps >= 1 && e1 <= e2 && w1 <= w2
    ensures p.Allowance(e1, w1) <= p.Allowance(e2, w2)
  {
    var k: nat := p.rps - 1;
    MulLe(e1, e2, k);
    Quotients(k * e1, k * e2);
    Quotients(w1, w2);
  }

  lemma {:induction false} Quotients(x: nat, y: nat)
    requires x <= y
    ensures x / 1024 <= y / 1024
  {
  }

  lemma {:induction false} LogNext(log: seq<Entry>, l: Entry, b: nat)
    ensures var next := log + [l];
            && SinceReset(next, b) == One(l, b) + (if l.opening then 0 else SinceReset(log, b))
            && Total(next, b) == One(l, b) + Total(log, b)
            && Windows(next) == (if l.opening then 1 else 0) + Windows(log)
            && next[|next| - 1] == l && (log != [] ==> next[0] == log[0])
  {
    var next := log + [l];
    assert next[..|next| - 1] == log;
  }

  /** The counters after one request, in a window that is open and counted up to time t. */
  ghost predicate Open(p: Params, w: State, t: nat, e: Request)
  {
    && p.Valid() && p.Fits() && |w.counts| == p.buckets && e.bucket < p.buckets
    && w.start <= t <= e.time <= w.reset && w.start + p.timeMin <= w.reset < w.start + p.timeMax
    && forall b :: 0 <= b < p.buckets ==> w.counts[b] <= p.Allowance(t - w.start, w.reset - w.start)
  }

  lemma {:induction false} CountStep(p: Params, w: State, t: nat, e: Request)
    requires Open(p, w, t, e)
    ensures var (s, ok) := Count(p, w, e);
            && s == w.(counts := s.counts) && |s.counts| == p.buckets
            && (forall b :: 0 <= b < p.buckets ==> s.counts[b] == w.counts[b] + if b == e.bucket && ok then 1 else 0)
            && (forall b :: 0 <= b < p.buckets ==>
                  s.counts[b] <= p.Allowance(e.time - w.start, w.reset - w.start) < M16)
  {
    hide Params.Allowance, Limit, PerSecond;
    var n := w.reset - w.start;
    AllowanceGrows(p, t - w.start, e.time - w.start, n, n);
    AllowanceGrows(p, e.time - w.start, p.timeMax - 1, n, p.timeMax - 1);
    LimitIsAllowance(p, w, e.time);
  }

  lemma {:induction false} LimitIsAllowance(p: Params, w: State, time: nat)
    requires p.rps >= 1 && w.start <= time && w.start <= w.reset
    ensures Limit(p, w, time) + 1 == p.Allowance(time - w.start, w.reset - w.start) && Limit(p, w, time) >= 1
  {
    hide PerSecond;
  }

  lemma {:induction false} Opens(p: Params, h: History, now: nat, e: Request) returns (t: nat)
    requires Inv(p, h, now) && p.Fits() && now <= e.time && e.bucket < p.buckets
    ensures Open(p, Window(p, h.s, e), t, e)
    ensures if e.time > h.s.reset then t == e.time else h.log != [] && t == h.log[|h.log| - 1].time
  {
    hide Params.Allowance, Rated, Params.PerWindow;
    if e.time > h.s.reset {
      t := e.time;
    } else {
      t := h.log[|h.log| - 1].time;
    }
  }

  lemma {:induction false} KeepsCounted(p: Params, h: History, now: nat, e: Request)
    requires Inv(p, h, now) && p.Fits() && now <= e.time && e.bucket < p.buckets
    ensures var n := Serve(p, h, e);
            && |n.s.counts| == p.buckets && n.log != [] && n.log[|n.log| - 1].time == e.time
            && n.s.start <= e.time <= n.s.reset && n.s.start + p.timeMin <= n.s.reset < n.s.start + p.timeMax
            && Counted(p, n)
  {
    hide Params.Allowance, Rated, Params.PerWindow, Params.Fits, Count, SinceReset, Total, Windows;
    var t := Opens(p, h, now, e);
    var w := Window(p, h.s, e);
    CountStep(p, w, t, e);
    var n := Serve(p, h, e);
    var l := n.log[|n.log| - 1];
    forall b | 0 <= b < p.buckets ensures n.s.counts[b] == SinceReset(n.log, b) {
      LogNext(h.log, l, b);
    }
  }

  lemma {:induction false} CountKeepsWindow(p: Params, w: State, e: Request)
    requires p.rps >= 1 && |w.counts| == p.buckets && e.bucket < p.buckets && w.start <= e.time && w.start <= w.reset
    ensures Count(p, w, e).0.start == w.start
  {
    hide Limit;
  }

  /** A window opens more than timeMin ms after the one before. */
  lemma {:induction false} KeepsSpacing(p: Params, h: History, now: nat, e: Request)
    requires Inv(p, h, now) && p.Fits() && now <= e.time && e.bucket < p.buckets
    ensures var n := Serve(p, h, e);
            Windows(n.log) >= 1 && (Windows(n.log) - 1) * (p.timeMin + 1) <= n.s.start - n.log[0].time
  {
    hide Params.Allowance, Params.PerWindow, Params.Fits, Count, SinceReset, Total, Windows, Counted;
    CountKeepsWindow(p, Window(p, h.s, e), e);
    var n := Serve(p, h, e);
    LogNext(h.log, n.log[|n.log| - 1], 0);
    EmptyLog(0);
    if h.log != [] && e.time > h.s.reset { OneMore(Windows(h.log) - 1, p.timeMin + 1); }
  }

  lemma {:induction false} KeepsTotal(p: Params, h: History, now: nat, e: Request, b: nat)
    requires Inv(p, h, now) && p.Fits() && now <= e.time && e.bucket < p.buckets && b < p.buckets
    ensures var n := Serve(p, h, e);
            Total(n.log, b) <= (Windows(n.log) - 1) * p.PerWindow() + SinceReset(n.log, b)
  {
    hide Params.Allowance, Params.PerWindow, Params.Fits, Count, SinceReset, Total, Windows;
    var n := Serve(p, h, e);
    var k, m: nat := Windows(h.log), p.PerWindow();
    LogNext(h.log, n.log[|n.log| - 1], b);
    EmptyLog(b);
    if h.log != [] && e.time > h.s.reset {
      var last := h.log[|h.log| - 1].time;
      AllowanceGrows(p, last - h.s.start, p.timeMax - 1, h.s.reset - h.s.start, p.timeMax - 1);
      Within(p);
      OneMore(k - 1, m);
    }
  }

  lemma {:induction false} KeepsRated(p: Params, h: History, now: nat, e: Request)
    requires Inv(p, h, now) && p.Fits() && now <= e.time && e.bucket < p.buckets
    ensures Rated(p, Serve(p, h, e))
  {
    hide Params.PerWindow, Counted, SinceReset, Total, Windows;
    KeepsSpacing(p, h, now, e);
    forall b | 0 <= b < p.buckets
      ensures var n := Serve(p, h, e); Total(n.log, b) <= (Windows(n.log) - 1) * p.PerWindow() + SinceReset(n.log, b)
    {
      KeepsTotal(p, h, now, e, b);
    }
  }

  lemma {:induction false} Within(p: Params)
    requires p.Valid()
    ensures p.PerWindow() == p.Allowance(p.timeMax - 1, p.timeMax - 1)
  {
  }

  lemma {:induction false} OneMore(k: int, m: int)
    ensures (k + 1) * m == k * m + m
  {
  }

  lemma {:induction false} EmptyLog(b: nat)
    ensures SinceReset([], b) == 0 && Total([], b) == 0 && Windows([]) == 0
  {
  }

  ghost predicate Ascending(es: seq<Request>, now: nat, p: Params)
  {
    && (forall i :: 0 <= i < |es| ==> now <= es[i].time && es[i].bucket < p.buckets)
    && forall i, j :: 0 <= i < j < |es| ==> es[i].time <= es[j].time
  }

  /** The tracker after a run of requests. */
  ghost function Run(p: Params, h: History, now: nat, es: seq<Request>): (r: History)
    requires Inv(p, h, now) && p.Fits() && Ascending(es, now, p)
    ensures Inv(p, r, if es == [] then now else es[|es| - 1].time)
    ensures |r.log| == |h.log| + |es|
    decreases es
  {
    if es == [] then h
    else
      KeepsCounted(p, h, now, es[0]);
      KeepsRated(p, h, now, es[0]);
      Run(p, Serve(p, h, es[0]), es[0].time, es[1..])
  }

  /**
   Over every run from a new tracker: no counter wraps, each equals the requests accepted since its window opened,
   and these never exceed the allowance for the time that has passed in the window.
   */
  lemma {:induction false} AcceptedSinceReset(p: Params, s: State, now: nat, es: seq<Request>, b: nat)
    requires p.Valid() && p.Fits() && |s.counts| == p.buckets && s.reset < now && Ascending(es, now, p)
    requires es != [] && b < p.buckets
    ensures var h := Run(p, History(s, []), now, es);
            var elapsed := es[|es| - 1].time - h.s.start;
            && h.s.start <= es[|es| - 1].time && p.timeMin <= h.s.reset - h.s.start < p.timeMax
            && h.s.counts[b] == SinceReset(h.log, b) < M16
            && SinceReset(h.log, b) <= PerSecond(p.rps - 1, elapsed) + (h.s.reset - h.s.start) / 1024 + 2
  {
    hide Run, SinceReset, PerSecond, Rated;
    var h := Run(p, History(s, []), now, es);
    var last := h.log[|h.log| - 1].time;
    LastTime(p, History(s, []), now, es);
    AllowanceGrows(p, last - h.s.start, p.timeMax - 1, h.s.reset - h.s.start, p.timeMax - 1);
  }

  lemma {:induction false} LastTime(p: Params, h: History, now: nat, es: seq<Request>)
    requires Inv(p, h, now) && p.Fits() && Ascending(es, now, p)
    ensures var r := Run(p, h, now, es);
            && (es != [] ==> r.log[|r.log| - 1].time == es[|es| - 1].time)
            && (es == [] ==> r == h)
            && (h.log != [] ==> r.log[0] == h.log[0])
            && (h.log == [] && es != [] ==> r.log[0].time == es[0].time)
    decreases es
  {
    hide Inv, Check, Params.Fits;
    if es == [] {
    } else {
      ServedInv(p, h, now, es[0]);
      var n := Serve(p, h, es[0]);
      LastTime(p, n, es[0].time, es[1..]);
    }
  }

  lemma {:induction false} ServedInv(p: Params, h: History, now: nat, e: Request)
    requires Inv(p, h, now) && p.Fits() && now <= e.time && e.bucket < p.buckets
    ensures e.time > h.s.reset || h.s.start <= e.time
    ensures |h.s.counts| == p.buckets && p.Valid() && Inv(p, Serve(p, h, e), e.time)
  {
    hide Counted, Rated, Params.Fits;
    KeepsCounted(p, h, now, e);
    KeepsRated(p, h, now, e);
  }

  /** Over a whole run, however many windows it spans, one bucket accepts at a bounded rate. */
  lemma {:induction false} AcceptedInRun(p: Params, s: State, now: nat, es: seq<Request>, b: nat)
    requires p.Valid() && p.Fits() && |s.counts| == p.buckets && s.reset < now && Ascending(es, now, p)
    requires es != [] && b < p.buckets
    ensures var h := Run(p, History(s, []), now, es);
            Total(h.log, b) <= ((es[|es| - 1].time - es[0].time) / (p.timeMin + 1) + 1) * p.PerWindow()
  {
    hide Run, SinceReset, PerSecond, Total, Windows, Params.PerWindow, Params.Allowance, Params.Fits;
    var h := Run(p, History(s, []), now, es);
    var last := h.log[|h.log| - 1].time;
    LastTime(p, History(s, []), now, es);
    AllowanceGrows(p, last - h.s.start, p.timeMax - 1, h.s.reset - h.s.start, p.timeMax - 1);
    Within(p);
    WindowsTimesBound(Total(h.log, b), SinceReset(h.log, b), Windows(h.log) - 1, p.PerWindow(), p.timeMin + 1,
                      last - es[0].time);
  }

  lemma {:induction false} WindowsTimesBound(total: nat, since: nat, k: nat, m: nat, spacing: nat, d: nat)
    requires spacing > 0 && total <= k * m + since && since <= m && k * spacing <= d
    ensures total <= (d / spacing + 1) * m
  {
    AtMost(k, spacing, d);
    MulLe(k + 1, d / spacing + 1, m);
    OneMore(k, m);
  }

  lemma {:induction false} AtMost(k: nat, m: nat, d: nat)
    requires m > 0 && k * m <= d
    ensures k <= d / m
  {
    if k > d / m { MulLe(d / m + 1, k, m); }
  }

  // ----- the verdict

  /** The verdict on one request depends on the log alone. */
  lemma {:induction false} VerdictStep(p: Params, h: History, now: nat, e: Request)
    requires Inv(p, h, now) && p.Fits() && now <= e.time && e.bucket < p.buckets
    requires e.time > h.s.reset || h.s.start <= e.time
    ensures var n, opening := Serve(p, h, e), e.time > h.s.reset;
            var before := if opening then 0 else SinceReset(h.log, e.bucket);
            && n.s.start == (if opening then e.time else h.s.start)
            && n.s.reset == (if opening then e.time + p.timeMin + e.rand % (p.timeMax - p.timeMin) else h.s.reset)
            && n.s.start <= e.time <= n.s.reset
            && n.log == h.log + [Entry(e.time, e.bucket,
                                       before < p.Allowance(e.time - n.s.start, n.s.reset - n.s.start), opening)]
  {
    hide SinceReset, Total, Windows, Rated, PerSecond, Limit, Params.Fits;
    KeepsCounted(p, h, now, e);
    var w := Window(p, h.s, e);
    LimitIsAllowance(p, w, e.time);
    AtLeastTwo(p, e.time - w.start, w.reset - w.start);
  }

  lemma {:induction false} AtLeastTwo(p: Params, elapsed: nat, window: nat)
    requires p.rps >= 1
    ensures p.Allowance(elapsed, window) >= 2
  {
    hide PerSecond;
  }

  lemma {:induction false} RunSnoc(p: Params, h: History, now: nat, es: seq<Request>, e: Request)
    requires Inv(p, h, now) && p.Fits() && Ascending(es + [e], now, p)
    ensures Ascending(es, now, p)
    ensures var r := Run(p, h, now, es);
            && p.Valid() && |r.s.counts| == p.buckets && e.bucket < p.buckets
            && (e.time > r.s.reset || r.s.start <= e.time)
            && Run(p, h, now, es + [e]) == Serve(p, r, e)
    decreases es
  {
    hide Check, Params.Fits, Counted, Rated;
    Shorter(p, now, es, e);
    if es == [] {
      assert es + [e] == [e] && [e][1..] == [];
      ServedInv(p, h, now, e);
    } else {
      ServedInv(p, h, now, es[0]);
      assert (es + [e])[0] == es[0] && (es + [e])[1..] == es[1..] + [e];
      RunSnoc(p, Serve(p, h, es[0]), es[0].time, es[1..], e);
    }
  }

  lemma {:induction false} Shorter(p: Params, now: nat, es: seq<Request>, e: Request)
    requires Ascending(es + [e], now, p)
    ensures Ascending(es, now, p) && now <= e.time && e.bucket < p.buckets
    ensures es != [] ==> es[|es| - 1].time <= e.time && Ascending(es[1..] + [e], es[0].time, p)
  {
    var fs := es + [e];
    assert fs[|es|] == e;
    assert forall i :: 0 <= i < |es| ==> fs[i] == es[i];
    if es != [] {
      assert fs[|es| - 1] == es[|es| - 1];
      assert fs[1..] == es[1..] + [e];
    }
  }

  /**
   Over every run: a request is accepted iff fewer requests of its bucket were accepted since the window opened than the
   allowance for the time passed; a request after the reset time opens a window, of the drawn length, with none.
   */
  lemma {:induction false} AcceptedIff(p: Params, s: State, now: nat, es: seq<Request>, e: Request)
    requires p.Valid() && p.Fits() && |s.counts| == p.buckets && s.reset < now && Ascending(es + [e], now, p)
    ensures Ascending(es, now, p)
    ensures var h, n := Run(p, History(s, []), now, es), Run(p, History(s, []), now, es + [e]);
            var opening := e.time > h.s.reset;
            var before := if opening then 0 else SinceReset(h.log, e.bucket);
            && n.s.start == (if opening then e.time else h.s.start)
            && n.s.reset == (if opening then e.time + p.timeMin + e.rand % (p.timeMax - p.timeMin) else h.s.reset)
            && n.s.start <= e.time <= n.s.reset
            && n.log == h.log + [Entry(e.time, e.bucket,
                                       before < p.Allowance(e.time - n.s.start, n.s.reset - n.s.start), opening)]
  {
    hide Run, SinceReset, Params.Allowance, Params.Fits, Serve, Counted, Rated;
    RunSnoc(p, History(s, []), now, es, e);
    Shorter(p, now, es, e);
    var h := Run(p, History(s, []), now, es);
    VerdictStep(p, h, if es == [] then now else es[|es| - 1].time, e);
  }

  // ----- counters that do not fit

  /** A tracker that is served the same request n times. */
  ghost function Repeat(p: Params, h: History, e: Request, n: nat): (r: History)
    requires p.Valid() && |h.s.counts| == p.buckets && e.bucket < p.buckets && h.s.start <= e.time <= h.s.reset
    ensures r.s == h.s.(counts := r.s.counts) && |r.s.counts| == p.buckets
    decreases n
  {
    if n == 0 then h
    else
      var m := Repeat(p, h, e, n - 1);
      CountKeepsWindow(p, m.s, e);
      Serve(p, m, e)
  }

  /** Once the limit exceeds what a counter can hold, every request is accepted. */
  lemma {:induction false} EveryRequestAccepted(p: Params, h: History, e: Request, n: nat)
    requires p.Valid() && |h.s.counts| == p.buckets && e.bucket < p.buckets && h.s.start <= e.time <= h.s.reset
    requires Limit(p, h.s, e.time) >= M16 - 1 && h.s.counts[e.bucket] < M16
    ensures var r := Repeat(p, h, e, n);
            SinceReset(r.log, e.bucket) == SinceReset(h.log, e.bucket) + n && r.s.counts[e.bucket] < M16
    decreases n
  {
    hide Limit, SinceReset, Total, Windows;
    if n == 0 {
    } else {
      EveryRequestAccepted(p, h, e, n - 1);
      var m := Repeat(p, h, e, n - 1);
      SameLimit(p, h.s, m.s, e.time);
      LogNext(m.log, Entry(e.time, e.bucket, true, false), e.bucket);
    }
  }

  lemma {:induction false} SameLimit(p: Params, s: State, t: State, time: nat)
    requires p.rps >= 1 && s.start <= time && s.start <= s.reset && t.start == s.start && t.reset == s.reset
    ensures Limit(p, s, time) == Limit(p, t, time)
  {
  }

  /** Parameters that do not fit: a window of full length, once at its end, accepts any number of requests. */
  lemma {:induction false} UnfitOverruns(p: Params, s: State, now: nat, n: nat)
    requires p.Valid() && !p.Fits() && |s.counts| == p.buckets && s.reset < now
    ensures var h := Serve(p, History(s, []), Request(now, 0, p.timeMax - 1 - p.timeMin));
            var e := Request(now + (p.timeMax - 1), 0, 0);
            && h.s.start == now && h.s.reset == now + (p.timeMax - 1)
            && SinceReset(Repeat(p, h, e, n).log, 0) == n + 1
  {
    hide SinceReset, Total, Windows, PerSecond;
    var e0, e := Request(now, 0, p.timeMax - 1 - p.timeMin), Request(now + (p.timeMax - 1), 0, 0);
    DivModUnique(e0.rand, p.timeMax - p.timeMin, 0, e0.rand);
    var h := Serve(p, History(s, []), e0);
    LimitIsAllowance(p, h.s, e.time);
    LogNext([], Entry(now, 0, true, true), 0);
    assert h.log == [] + [Entry(now, 0, true, true)];
    EveryRequestAccepted(p, h, e, n);
  }

  // ----- the program

  class Tracker {
    const p: Params
    var start: nat
    var reset: nat
    const counts: array<nat>

    ghost function Value(): State
      reads this, counts
    {
      State(start, reset, counts[..])
    }

    /** quota_init: the reset time lies in the past, so that the first request clears the counters. */
    constructor (rps: nat, timeMin: nat, timeMax: nat, buckets: nat, now: nat)
      requires now > 0
      ensures p == Params(EffectiveRate(rps), timeMin, timeMax, buckets) && counts.Length == buckets && fresh(counts)
      ensures Value().reset == now - 1
    {
      p := Params(EffectiveRate(rps), timeMin, timeMax, buckets);
      counts := new nat[buckets](_ => 0);
      start, reset := 0, now - 1;
    }

    /** quota_check for a request whose address falls into the given bucket. */
    method Ask(e: Request) returns (ok: bool)
      requires p.Valid() && counts.Length == p.buckets && e.bucket < p.buckets
      requires e.time > reset || start <= e.time
      modifies this, counts
      ensures (Value(), ok) == Check(p, old(Value()), e)
    {
      hide Limit;
      if e.time > reset {
        reset, start := e.time + e.rand % (p.timeMax - p.timeMin) + p.timeMin, e.time;
        forall k | 0 <= k < counts.Length { counts[k] := 0; }
        assert counts[..] == seq(p.buckets, _ => 0);
      }
      ghost var w := Window(p, old(Value()), e);
      assert Value() == w;
      var c := counts[e.bucket];
      if c == 0 {
        counts[e.bucket] := 1;
        ok := true;
      } else if c <= PerSecond(p.rps - 1, e.time - start) + (reset - start) / 1024 + 1 {
        assert c <= Limit(p, w, e.time) by { LimitFormula(p, w, e.time); }
        counts[e.bucket] := (c + 1) % M16;
        ok := true;
      } else {
        assert c > Limit(p, w, e.time) by { LimitFormula(p, w, e.time); }
        ok := false;
      }
    }
  }

  lemma {:induction false} LimitFormula(p: Params, s: State, time: nat)
    requires p.rps >= 1 && s.start <= time && s.start <= s.reset
    ensures Limit(p, s, time) == PerSecond(p.rps - 1, time - s.start) + (s.reset - s.start) / 1024 + 1
  {
  }
}
