/** The per-client request limiter (proxy/security/rate_limiter.py). Times are clock readings in seconds. */
module RateLimiter {
  type Key = string

  datatype Window = Window(count: nat, start: real)

  datatype Limiter = Limiter(windows: map<Key, Window>, bursts: map<Key, real>)

  const EMPTY := Limiter(map[], map[])

  function Limit(rate: real, burst: real): real { rate + if burst > 0.0 then burst else 0.0 }

  /** The window a request counts in: the stored one, or a new one stamped by a second clock reading `tick`. */
  function Current(s: Limiter, key: Key, now: real, tick: real): (w: Window)
  {
    if key !in s.windows || now - s.windows[key].start > 1.0 then Window(0, tick) else s.windows[key]
  }

  function Allowed(s: Limiter, key: Key, rate: real, burst: real, now: real, tick: real): (r: (Limiter, bool))
  {
    if rate <= 0.0 then (s, true)
    else
      var w := Current(s, key, now, tick);
      var w' := w.(count := w.count + 1);
      var expiry := if key in s.bursts then s.bursts[key] else 0.0;
      (s.(windows := s.windows[key := w']),
       w'.count as real <= Limit(rate, burst) || (burst > 0.0 && now < expiry))
  }

  function Granted(s: Limiter, key: Key, now: real, duration: real): (r: Limiter)
  {
    s.(bursts := s.bursts[key := now + duration])
  }

  /** What `cleanup` keeps by age alone. */
  function Aged(s: Limiter, now: real): (r: Limiter)
  {
    Limiter(YoungWindows(s.windows, now), LiveBursts(s.bursts, now))
  }

  function YoungWindows(windows: map<Key, Window>, now: real): (r: map<Key, Window>)
  {
    map k | k in windows && now - windows[k].start <= 10.0 :: windows[k]
  }

  function LiveBursts(bursts: map<Key, real>, now: real): (r: map<Key, real>)
  {
    map k | k in bursts && now <= bursts[k] :: bursts[k]
  }

  /** `order` is the iteration order of the dictionary left by the age pass. */
  ghost predicate IsOrder(order: seq<Key>, windows: map<Key, Window>) {
    && (forall k :: k in order <==> k in windows)
    && |order| == |windows|
  }

  function Leading(order: seq<Key>, n: nat): (r: set<Key>)
    requires n <= |order|
  {
    set k | k in order[..n]
  }

  lemma {:induction false} LeadingNext(order: seq<Key>, n: nat)
    requires n < |order|
    ensures Leading(order, n + 1) == Leading(order, n) + {order[n]}
  {
    assert order[..n + 1] == order[..n] + [order[n]];
  }

  lemma {:induction false} LeadingNone(order: seq<Key>)
    ensures Leading(order, 0) == {}
  {
  }

  /** `cleanup`: the age pass, and on overflow the eviction of the first keys in dictionary order. */
  function Cleaned(s: Limiter, zone: nat, now: real, order: seq<Key>): (r: Limiter)
  {
    var a := Aged(s, now);
    var excess := |a.windows| - zone;
    if excess <= 0 || excess > |order| then a
    else a.(windows := a.windows - Leading(order, excess))
  }

  class RateLimiter {
    const zoneSize: nat
    var windows: map<Key, Window>
    var bursts: map<Key, real>

    constructor (zoneSize: nat)
      ensures View() == EMPTY && this.zoneSize == zoneSize
    {
      this.zoneSize := zoneSize;
      windows, bursts := map[], map[];
    }

    function View(): Limiter
      reads this
    {
      Limiter(windows, bursts)
    }

    method Allow(key: Key, rate: real, burst: real, now: real, tick: real) returns (ok: bool)
      modifies this`windows
      ensures (View(), ok) == Allowed(old(View()), key, rate, burst, now, tick)
    {
      if rate <= 0.0 { return true; }
      if key !in windows || now - windows[key].start > 1.0 {
        windows := windows[key := Window(0, tick)];
      }
      windows := windows[key := windows[key].(count := windows[key].count + 1)];
      assert windows == Allowed(old(View()), key, rate, burst, now, tick).0.windows;
      if windows[key].count as real <= Limit(rate, burst) { return true; }
      var expiry := if key in bursts then bursts[key] else 0.0;
      if burst > 0.0 && now < expiry { return true; }
      return false;
    }

    method SetBurst(key: Key, now: real, duration: real)
      modifies this`bursts
      ensures View() == Granted(old(View()), key, now, duration)
    {
      bursts := bursts[key := now + duration];
    }

    method Cleanup(now: real, order: seq<Key>)
      requires IsOrder(order, Aged(View(), now).windows)
      modifies this
      ensures View() == Cleaned(old(View()), zoneSize, now, order)
    {
      hide YoungWindows, LiveBursts, Leading;
      AgeWindows(now);
      AgeBursts(now);
      if |windows| > zoneSize {
        EvictLeading(order, |windows| - zoneSize);
      }
    }

    method EvictLeading(order: seq<Key>, excess: nat)
      requires excess <= |order|
      modifies this`windows
      ensures windows == old(windows) - Leading(order, excess)
    {
      hide Leading;
      var i := 0;
      assert windows == windows - Leading(order, 0) by { LeadingNone(order); }
      while i < excess
        invariant 0 <= i <= excess
        invariant windows == old(windows) - Leading(order, i)
      {
        LeadingNext(order, i);
        windows := windows - {order[i]};
        i := i + 1;
      }
    }

    method AgeWindows(now: real)
      modifies this`windows
      ensures windows == YoungWindows(old(windows), now)
    {
      var todo := windows.Keys;
      while todo != {}
        invariant todo <= windows.Keys
        invariant windows ==
          map k | k in old(windows) && (k in todo || now - old(windows)[k].start <= 10.0) :: old(windows)[k]
        decreases todo
      {
        var k :| k in todo;
        if now - windows[k].start > 10.0 { windows := windows - {k}; }
        todo := todo - {k};
      }
    }

    method AgeBursts(now: real)
      modifies this`bursts
      ensures bursts == LiveBursts(old(bursts), now)
    {
      var todo := bursts.Keys;
      while todo != {}
        invariant todo <= bursts.Keys
        invariant bursts == map k | k in old(bursts) && (k in todo || now <= old(bursts)[k]) :: old(bursts)[k]
        decreases todo
      {
        var k :| k in todo;
        if now > bursts[k] { bursts := bursts - {k}; }
        todo := todo - {k};
      }
    }
  }

  // ---- What the single operations mean --------------------------------------------------

  /** The limit is the rate, raised by a burst that is positive. */
  lemma {:induction false} LimitExactly(rate: real, burst: real)
    ensures burst >= 0.0 ==> Limit(rate, burst) == rate + burst
    ensures burst < 0.0 ==> Limit(rate, burst) == rate
  {
  }

  /** A rate of zero or less limits nothing and counts nothing. */
  lemma {:induction false} Unlimited(s: Limiter, key: Key, rate: real, burst: real, now: real, tick: real)
    requires rate <= 0.0
    ensures Allowed(s, key, rate, burst, now, tick) == (s, true)
  {
  }

  /** A limited request is counted once, for its client alone. Its window begins at the second clock reading if there
      was none or the last one began more than a second ago, and holds every request of the following second. */
  lemma {:induction false} CountsExactly(s: Limiter, key: Key, rate: real, burst: real, now: real, tick: real)
    requires rate > 0.0
    ensures var t := Allowed(s, key, rate, burst, now, tick).0;
      && key in t.windows && t.bursts == s.bursts
      && t.windows[key] == (if key in s.windows && now <= s.windows[key].start + 1.0
                            then Window(s.windows[key].count + 1, s.windows[key].start) else Window(1, tick))
      && forall k :: k != key ==>
           (k in t.windows <==> k in s.windows) && (k in s.windows ==> t.windows[k] == s.windows[k])
  {
  }

  /** A grant admits until its duration has passed since it was given. */
  lemma {:induction false} GrantLasts(s: Limiter, key: Key, at: real, duration: real, rate: real, burst: real,
                                      now: real, tick: real)
    requires rate > 0.0 && burst > 0.0 && now >= 0.0
    ensures var t := Granted(s, key, at, duration);
      var exhausted := Current(t, key, now, tick).count as real + 1.0 > rate + burst;
      && t.windows == s.windows
      && (forall k :: k != key && k in s.bursts ==> k in t.bursts && t.bursts[k] == s.bursts[k])
      && (exhausted ==> (Allowed(t, key, rate, burst, now, tick).1 <==> now < at + duration))
  {
  }

  /** A cleanup keeps exactly the windows begun at most ten seconds ago, less the first in dictionary order if more are
      left than the zone holds, and the grants not yet expired; and it changes none it keeps. */
  lemma {:induction false} CleansExactly(s: Limiter, zone: nat, now: real, order: seq<Key>, k: Key)
    requires IsOrder(order, Aged(s, now).windows)
    ensures var t := Cleaned(s, zone, now, order);
      && (k in t.windows <==>
            && k in s.windows && now - s.windows[k].start <= 10.0
            && !exists i :: 0 <= i < |order| - zone && order[i] == k)
      && (k in t.windows ==> t.windows[k] == s.windows[k])
      && (k in t.bursts <==> k in s.bursts && now <= s.bursts[k])
      && (k in t.bursts ==> t.bursts[k] == s.bursts[k])
  {
    var excess := |Aged(s, now).windows| - zone;
    if excess > 0 {
      assert k in Leading(order, excess) <==> k in order[..excess];
      assert k in order[..excess] <==> exists i :: 0 <= i < excess && order[i] == k;
    }
  }

  // ---- Runs ------------------------------------------------------------------------------

  datatype Event =
    | Request(key: Key, rate: real, burst: real, now: real, tick: real)
    | Grant(key: Key, now: real, duration: real)
    | Cleanup(now: real, order: seq<Key>)

  function Finish(e: Event): real { if e.Request? then e.tick else e.now }

  /** Clock readings never go back. */
  ghost predicate Timed(events: seq<Event>) {
    && (forall i :: 0 <= i < |events| ==> 0.0 <= events[i].now <= Finish(events[i]))
    && (forall i, j :: 0 <= i < j < |events| ==> Finish(events[i]) <= events[j].now)
  }

  function Step(zone: nat, s: Limiter, e: Event): (t: Limiter)
  {
    match e
    case Request(k, rate, burst, now, tick) => Allowed(s, k, rate, burst, now, tick).0
    case Grant(k, now, d) => Granted(s, k, now, d)
    case Cleanup(now, order) => Cleaned(s, zone, now, order)
  }

  function Exec(zone: nat, events: seq<Event>): (s: Limiter)
  {
    if events == [] then EMPTY else Step(zone, Exec(zone, events[..|events| - 1]), events[|events| - 1])
  }

  /** A cleanup that finds no more live windows than the zone holds (see `CleanupChangesExactly` for one that does
      not). */
  predicate Fits(zone: nat, s: Limiter, e: Event) { e.Cleanup? ==> |Aged(s, e.now).windows| <= zone }

  ghost predicate FittingRun(zone: nat, events: seq<Event>) {
    forall i :: 0 <= i < |events| ==> Fits(zone, Exec(zone, events[..i]), events[i])
  }

  predicate Admits(s: Limiter, e: Event, key: Key) {
    e.Request? && e.key == key && Allowed(s, key, e.rate, e.burst, e.now, e.tick).1
  }

  /** When the admitted requests of `key` arrived. */
  function AdmitTimes(zone: nat, events: seq<Event>, key: Key): (r: seq<real>)
  {
    if events == [] then []
    else
      var prior, e := events[..|events| - 1], events[|events| - 1];
      AdmitTimes(zone, prior, key) + if Admits(Exec(zone, prior), e, key) then [e.now] else []
  }

  /** How many of `times` lie in the closed second that begins at `a`. */
  function InSecond(times: seq<real>, a: real): (n: nat)
  {
    if times == [] then 0
    else InSecond(times[..|times| - 1], a) + if a <= times[|times| - 1] <= a + 1.0 then 1 else 0
  }

  // ---- The bound on admissions -------------------------------------------------------------

  /** The run of one key, cut into its counting windows: when each was opened, and which window admitted what. */
  datatype Span = Span(first: real, start: real)
  datatype Admit = Admit(time: real, win: nat)
  datatype Trace = Trace(wins: seq<Span>, log: seq<Admit>)

  function TraceStep(s: Limiter, tr: Trace, e: Event, key: Key): (r: Trace)
  {
    if !(e.Request? && e.key == key) then tr
    else
      var isNew := key !in s.windows || e.now - s.windows[key].start > 1.0;
      var wins := if isNew then tr.wins + [Span(e.now, e.tick)] else tr.wins;
      Trace(wins, if Admits(s, e, key) && |wins| > 0 then tr.log + [Admit(e.now, |wins| - 1)] else tr.log)
  }

  function TraceOf(zone: nat, events: seq<Event>, key: Key): (r: Trace)
  {
    if events == [] then Trace([], [])
    else
      var prior, e := events[..|events| - 1], events[|events| - 1];
      TraceStep(Exec(zone, prior), TraceOf(zone, prior, key), e, key)
  }

  /** How many admissions of window `w`. */
  function OfWin(log: seq<Admit>, w: nat): (n: nat)
  {
    if log == [] then 0 else OfWin(log[..|log| - 1], w) + if log[|log| - 1].win == w then 1 else 0
  }

  ghost predicate SpansOk(wins: seq<Span>) {
    && (forall w :: 0 <= w < |wins| ==> wins[w].first <= wins[w].start)
    && (forall v, w :: 0 <= v < w < |wins| ==> wins[v].start + 1.0 < wins[w].first)
  }

  ghost predicate LogOk(tr: Trace, cap: nat) {
    && (forall i :: 0 <= i < |tr.log| ==> tr.log[i].win < |tr.wins|)
    && (forall i :: 0 <= i < |tr.log| ==>
          tr.wins[tr.log[i].win].first <= tr.log[i].time <= tr.wins[tr.log[i].win].start + 1.0)
    && (forall i, j :: 0 <= i < j < |tr.log| ==> tr.log[i].win <= tr.log[j].win)
    && (forall w :: 0 <= w < |tr.wins| ==> OfWin(tr.log, w) <= cap)
  }

  /** Unless nothing is ever admitted, the request that opens a window is. */
  ghost predicate FirstsOk(tr: Trace, cap: nat) {
    cap > 0 ==> forall w :: 0 <= w < |tr.wins| ==> Admit(tr.wins[w].first, w) in tr.log
  }

  /** How the stored window of `key` relates to the last span, at clock reading `now`. */
  ghost predicate TailOk(s: Limiter, tr: Trace, key: Key, now: real) {
    if key in s.windows then
      && |tr.wins| > 0
      && tr.wins[|tr.wins| - 1].start == s.windows[key].start
      && s.windows[key].start <= now
      && OfWin(tr.log, |tr.wins| - 1) <= s.windows[key].count
      && s.windows[key].count > 0
    else |tr.wins| > 0 ==> now - tr.wins[|tr.wins| - 1].start > 1.0
  }

  /** The steady setting of the bound for `key`: one positive rate and one burst, and no burst grant that could apply.
      */
  predicate Steady(e: Event, key: Key, rate: real, burst: real) {
    match e
    case Request(k, r, b, _, _) => k == key ==> r == rate && b == burst
    case Grant(k, _, _) => k == key ==> burst <= 0.0
    case Cleanup(_, _) => true
  }

  lemma {:induction false} OfWinAppend(log: seq<Admit>, x: Admit, w: nat)
    ensures OfWin(log + [x], w) == OfWin(log, w) + if x.win == w then 1 else 0
  {
    assert (log + [x])[..|log|] == log;
  }

  lemma {:induction false} OfWinNone(log: seq<Admit>, w: nat)
    requires forall i :: 0 <= i < |log| ==> log[i].win != w
    ensures OfWin(log, w) == 0
  {
    if log != [] { OfWinNone(log[..|log| - 1], w); }
  }

  /** A request of `key` that has no burst grant to fall back on is admitted exactly while the count is within the
      limit. */
  ghost predicate Ungranted(s: Limiter, key: Key, burst: real) { burst > 0.0 ==> key !in s.bursts }

  ghost predicate TraceOk(s: Limiter, tr: Trace, key: Key, now: real, cap: nat) {
    SpansOk(tr.wins) && LogOk(tr, cap) && FirstsOk(tr, cap) && TailOk(s, tr, key, now)
  }

  lemma {:induction false} TraceLater(s: Limiter, tr: Trace, key: Key, now: real, later: real, cap: nat)
    requires TraceOk(s, tr, key, now, cap) && now <= later
    ensures TraceOk(s, tr, key, later, cap)
  {
  }

  lemma {:induction false} OpenSpan(tr: Trace, sp: Span, cap: nat)
    requires SpansOk(tr.wins) && LogOk(tr, cap) && sp.first <= sp.start
    requires |tr.wins| > 0 ==> tr.wins[|tr.wins| - 1].start + 1.0 < sp.first
    ensures SpansOk(tr.wins + [sp]) && LogOk(Trace(tr.wins + [sp], tr.log), cap)
    ensures OfWin(tr.log, |tr.wins|) == 0
  {
    OfWinNone(tr.log, |tr.wins|);
    hide OfWin;
    var W := |tr.wins|;
    forall v | 0 <= v < W
      ensures tr.wins[v].start + 1.0 < sp.first
    {
      if v < W - 1 { assert tr.wins[v].start + 1.0 < tr.wins[W - 1].first; }
    }
  }

  lemma {:induction false} LogAdmission(tr: Trace, x: Admit, cap: nat)
    requires LogOk(tr, cap) && |tr.wins| > 0 && x.win == |tr.wins| - 1
    requires tr.wins[x.win].first <= x.time <= tr.wins[x.win].start + 1.0
    requires OfWin(tr.log, x.win) < cap
    ensures LogOk(Trace(tr.wins, tr.log + [x]), cap)
    ensures OfWin(tr.log + [x], x.win) == OfWin(tr.log, x.win) + 1
  {
    hide OfWin;
    forall w | 0 <= w < |tr.wins|
      ensures OfWin(tr.log + [x], w) <= cap
    {
      OfWinAppend(tr.log, x, w);
    }
    OfWinAppend(tr.log, x, x.win);
  }

  /** A burst grant is in force for the request. */
  predicate Privileged(s: Limiter, e: Event) {
    e.Request? && e.burst > 0.0 && e.key in s.bursts && e.now < s.bursts[e.key]
  }

  /** Admission is the comparison of a whole count with a whole bound, or a grant in force. */
  lemma {:induction false} AdmitsExactly(s: Limiter, key: Key, e: Event, cap: nat)
    requires e.Request? && e.key == key && e.rate > 0.0 && 0.0 <= e.now && cap == Limit(e.rate, e.burst).Floor
    ensures Admits(s, e, key) <==> Current(s, key, e.now, e.tick).count + 1 <= cap || Privileged(s, e)
  {
    var n := Current(s, key, e.now, e.tick).count + 1;
    assert n as real <= Limit(e.rate, e.burst) <==> n <= cap;
  }

  /** What a request that opens a window does to the state and to the trace. */
  lemma {:induction false} FreshStep(zone: nat, s: Limiter, tr: Trace, key: Key, e: Event, cap: nat)
    requires e.Request? && e.key == key && e.rate > 0.0 && 0.0 <= e.now && Ungranted(s, key, e.burst)
    requires cap == Limit(e.rate, e.burst).Floor
    requires key !in s.windows || e.now - s.windows[key].start > 1.0
    ensures key in Step(zone, s, e).windows && Step(zone, s, e).windows[key] == Window(1, e.tick)
    ensures TraceStep(s, tr, e, key)
         == Trace(tr.wins + [Span(e.now, e.tick)], tr.log + if cap >= 1 then [Admit(e.now, |tr.wins|)] else [])
  {
    AdmitsExactly(s, key, e, cap);
  }

  lemma {:induction false} FreshWindow(zone: nat, s: Limiter, tr: Trace, key: Key, e: Event, cap: nat)
    requires e.Request? && e.key == key && e.rate > 0.0 && 0.0 <= e.now <= e.tick
    requires TraceOk(s, tr, key, e.now, cap) && Ungranted(s, key, e.burst)
    requires cap == Limit(e.rate, e.burst).Floor
    requires key !in s.windows || e.now - s.windows[key].start > 1.0
    ensures TraceOk(Step(zone, s, e), TraceStep(s, tr, e, key), key, e.tick, cap)
  {
    hide OfWin, Cleaned, Granted, Admits, Allowed, LogOk, SpansOk, Step, TraceStep, Current;
    var sp, x := Span(e.now, e.tick), Admit(e.now, |tr.wins|);
    var extended := Trace(tr.wins + [sp], tr.log);
    OpenSpan(tr, sp, cap);
    FreshStep(zone, s, tr, key, e, cap);
    if cap >= 1 {
      LogAdmission(extended, x, cap);
      FirstAdded(tr, sp, cap);
    } else {
      assert tr.log + [] == tr.log;
    }
  }

  lemma {:induction false} FirstAdded(tr: Trace, sp: Span, cap: nat)
    requires FirstsOk(tr, cap)
    ensures FirstsOk(Trace(tr.wins + [sp], tr.log + [Admit(sp.first, |tr.wins|)]), cap)
  {
    var wins, log := tr.wins + [sp], tr.log + [Admit(sp.first, |tr.wins|)];
    forall w | cap > 0 && 0 <= w < |wins| ensures Admit(wins[w].first, w) in log {
      if w < |tr.wins| { assert Admit(tr.wins[w].first, w) in tr.log; }
      else { assert log[|log| - 1] == Admit(sp.first, w); }
    }
  }

  /** What a request in the current window does to the state and to the trace. */
  lemma {:induction false} SameStep(zone: nat, s: Limiter, tr: Trace, key: Key, e: Event, cap: nat)
    requires e.Request? && e.key == key && e.rate > 0.0 && 0.0 <= e.now && Ungranted(s, key, e.burst)
    requires cap == Limit(e.rate, e.burst).Floor && |tr.wins| > 0
    requires key in s.windows && e.now - s.windows[key].start <= 1.0
    ensures key in Step(zone, s, e).windows
    ensures Step(zone, s, e).windows[key] == Window(s.windows[key].count + 1, s.windows[key].start)
    ensures TraceStep(s, tr, e, key)
         == if s.windows[key].count + 1 <= cap then Trace(tr.wins, tr.log + [Admit(e.now, |tr.wins| - 1)]) else tr
  {
    AdmitsExactly(s, key, e, cap);
  }

  lemma {:induction false} SameWindow(zone: nat, s: Limiter, tr: Trace, key: Key, e: Event, cap: nat)
    requires e.Request? && e.key == key && e.rate > 0.0 && 0.0 <= e.now <= e.tick
    requires TraceOk(s, tr, key, e.now, cap) && Ungranted(s, key, e.burst)
    requires cap == Limit(e.rate, e.burst).Floor
    requires key in s.windows && e.now - s.windows[key].start <= 1.0
    ensures TraceOk(Step(zone, s, e), TraceStep(s, tr, e, key), key, e.tick, cap)
  {
    assert tr.wins[|tr.wins| - 1].first <= tr.wins[|tr.wins| - 1].start;
    hide OfWin, Cleaned, Granted, Admits, Allowed, LogOk, SpansOk, FirstsOk, Step, TraceStep, Current;
    SameStep(zone, s, tr, key, e, cap);
    if s.windows[key].count + 1 <= cap {
      var x := Admit(e.now, |tr.wins| - 1);
      LogAdmission(tr, x, cap);
      FirstsKept(tr, x, cap);
    }
  }

  lemma {:induction false} FirstsKept(tr: Trace, x: Admit, cap: nat)
    requires FirstsOk(tr, cap)
    ensures FirstsOk(Trace(tr.wins, tr.log + [x]), cap)
  {
    forall w | cap > 0 && 0 <= w < |tr.wins| ensures Admit(tr.wins[w].first, w) in tr.log + [x] {
      assert Admit(tr.wins[w].first, w) in tr.log;
    }
  }

  /** The runs the bound speaks of, ended by clock reading `end`. */
  ghost predicate SteadyRun(zone: nat, events: seq<Event>, key: Key, rate: real, burst: real, end: real) {
    && Timed(events) && FittingRun(zone, events)
    && (forall i :: 0 <= i < |events| ==> Steady(events[i], key, rate, burst) && Finish(events[i]) <= end)
  }

  lemma {:induction false} SteadyPrior(zone: nat, events: seq<Event>, key: Key, rate: real, burst: real, end: real)
    requires SteadyRun(zone, events, key, rate, burst, end) && events != []
    ensures var prior, e := events[..|events| - 1], events[|events| - 1];
      && SteadyRun(zone, prior, key, rate, burst, e.now)
      && Fits(zone, Exec(zone, prior), e) && Steady(e, key, rate, burst)
      && 0.0 <= e.now <= Finish(e) <= end
  {
    hide Fits, Steady, Exec;
    var prior := events[..|events| - 1];
    assert forall i :: 0 <= i < |prior| ==> prior[i] == events[i] && prior[..i] == events[..i];
  }

  lemma {:induction false} RunUnfolds(zone: nat, events: seq<Event>, key: Key)
    ensures events == [] ==>
      Exec(zone, events) == EMPTY && TraceOf(zone, events, key) == Trace([], []) && AdmitTimes(zone, events, key) == []
    ensures events != [] ==>
      var prior, e := events[..|events| - 1], events[|events| - 1];
      var s := Exec(zone, prior);
      && Exec(zone, events) == Step(zone, s, e)
      && TraceOf(zone, events, key) == TraceStep(s, TraceOf(zone, prior, key), e, key)
      && AdmitTimes(zone, events, key) == AdmitTimes(zone, prior, key) + if Admits(s, e, key) then [e.now] else []
  {
  }

  lemma {:induction false} TraceAlways(zone: nat, events: seq<Event>, key: Key, rate: real, burst: real, end: real)
    requires SteadyRun(zone, events, key, rate, burst, end) && rate > 0.0
    ensures Limit(rate, burst).Floor >= 0
    ensures TraceOk(Exec(zone, events), TraceOf(zone, events, key), key, end, Limit(rate, burst).Floor)
    ensures Ungranted(Exec(zone, events), key, burst)
    ensures AdmitTimes(zone, events, key) == Times(TraceOf(zone, events, key).log)
    decreases |events|
  {
    RunUnfolds(zone, events, key);
    hide TraceOf, AdmitTimes, Exec;
    if events != [] {
      hide SteadyRun, TraceStep, TraceOk, Allowed, OfWin, Step, Ungranted, Times, Limit, Admits, Fits, Steady;
      var prior, e := events[..|events| - 1], events[|events| - 1];
      SteadyPrior(zone, events, key, rate, burst, end);
      TraceAlways(zone, prior, key, rate, burst, e.now);
      StepTraceOk(zone, Exec(zone, prior), TraceOf(zone, prior, key), key, rate, burst, e);
      TraceLater(Exec(zone, events), TraceOf(zone, events, key), key, Finish(e), end, Limit(rate, burst).Floor);
    }
  }

  lemma {:induction false} StepTraceOk(zone: nat, s: Limiter, tr: Trace, key: Key, rate: real, burst: real, e: Event)
    requires rate > 0.0 && Fits(zone, s, e) && Steady(e, key, rate, burst) && 0.0 <= e.now <= Finish(e)
    requires Limit(rate, burst).Floor >= 0
    requires TraceOk(s, tr, key, e.now, Limit(rate, burst).Floor) && Ungranted(s, key, burst)
    ensures TraceOk(Step(zone, s, e), TraceStep(s, tr, e, key), key, Finish(e), Limit(rate, burst).Floor)
    ensures Ungranted(Step(zone, s, e), key, burst)
    ensures Times(TraceStep(s, tr, e, key).log) == Times(tr.log) + if Admits(s, e, key) then [e.now] else []
  {
    StepTimes(zone, s, tr, key, rate, burst, e);
    hide OfWin, TraceOk, Allowed, TraceStep;
    var cap := Limit(rate, burst).Floor;
    if e.Request? && e.key == key {
      if key !in s.windows || e.now - s.windows[key].start > 1.0 {
        FreshWindow(zone, s, tr, key, e, cap);
      } else {
        SameWindow(zone, s, tr, key, e, cap);
      }
    } else {
      OtherStep(zone, s, tr, key, e, cap);
    }
  }

  lemma {:induction false} StepTimes(zone: nat, s: Limiter, tr: Trace, key: Key, rate: real, burst: real, e: Event)
    requires rate > 0.0 && Fits(zone, s, e) && Steady(e, key, rate, burst)
    requires Ungranted(s, key, burst) && TailOk(s, tr, key, e.now)
    ensures Ungranted(Step(zone, s, e), key, burst)
    ensures Times(TraceStep(s, tr, e, key).log) == Times(tr.log) + if Admits(s, e, key) then [e.now] else []
  {
    hide OfWin;
    assert Times(tr.log + [Admit(e.now, 0)]) == Times(tr.log) + [e.now];
  }

  lemma {:induction false} OtherStep(zone: nat, s: Limiter, tr: Trace, key: Key, e: Event, cap: nat)
    requires Fits(zone, s, e) && !(e.Request? && e.key == key) && e.now <= Finish(e) && TraceOk(s, tr, key, e.now, cap)
    ensures TraceOk(Step(zone, s, e), tr, key, Finish(e), cap)
  {
    hide OfWin;
    assert key in Step(zone, s, e).windows ==> key in s.windows && Step(zone, s, e).windows[key] == s.windows[key];
    assert key in s.windows && key !in Step(zone, s, e).windows ==> e.now - s.windows[key].start > 10.0;
  }

  function Times(log: seq<Admit>): (r: seq<real>)
  {
    seq(|log|, i requires 0 <= i < |log| => log[i].time)
  }

  /** How many admissions of window `w` fall in the closed second that begins at `a`. */
  function Hits(log: seq<Admit>, a: real, w: nat): (n: nat)
  {
    if log == [] then 0
    else
      var x := log[|log| - 1];
      Hits(log[..|log| - 1], a, w) + if x.win == w && a <= x.time <= a + 1.0 then 1 else 0
  }

  lemma {:induction false} HitsWithin(log: seq<Admit>, a: real, w: nat)
    ensures Hits(log, a, w) <= OfWin(log, w)
    ensures (exists x :: x in log && x.win == w && !(a <= x.time <= a + 1.0)) ==> Hits(log, a, w) < OfWin(log, w)
    ensures (forall x :: x in log && a <= x.time <= a + 1.0 ==> x.win != w) ==> Hits(log, a, w) == 0
  {
    if log != [] {
      var front, last := log[..|log| - 1], log[|log| - 1];
      HitsWithin(front, a, w);
      assert forall x :: x in log <==> x in front || x == last;
    }
  }

  lemma {:induction false} HitsSplit(log: seq<Admit>, a: real, w: nat)
    requires forall x :: x in log && a <= x.time <= a + 1.0 ==> x.win == w || x.win == w + 1
    ensures InSecond(Times(log), a) == Hits(log, a, w) + Hits(log, a, w + 1)
  {
    if log != [] {
      var front, last := log[..|log| - 1], log[|log| - 1];
      assert forall x :: x in front ==> x in log;
      HitsSplit(front, a, w);
      assert Times(log)[..|log| - 1] == Times(front);
      assert last in log;
    }
  }

  lemma {:induction false} NearbyWindows(tr: Trace, cap: nat, a: real, k: nat)
    requires SpansOk(tr.wins) && LogOk(tr, cap) && k < |tr.log|
    requires a <= tr.log[k].time <= a + 1.0
    requires forall j :: 0 <= j < k ==> !(a <= tr.log[j].time <= a + 1.0)
    ensures forall x :: x in tr.log && a <= x.time <= a + 1.0 ==> x.win == tr.log[k].win || x.win == tr.log[k].win + 1
  {
    hide OfWin;
    var w := tr.log[k].win;
    forall x | x in tr.log && a <= x.time <= a + 1.0
      ensures x.win == w || x.win == w + 1
    {
      var j :| 0 <= j < |tr.log| && tr.log[j] == x;
      WindowsApart(tr, cap, k, j);
    }
  }

  lemma {:induction false} WindowsApart(tr: Trace, cap: nat, i: nat, j: nat)
    requires SpansOk(tr.wins) && LogOk(tr, cap) && i < |tr.log| && j < |tr.log|
    ensures tr.log[j].win >= tr.log[i].win + 2 ==> tr.log[j].time > tr.log[i].time + 1.0
    ensures i <= j ==> tr.log[i].win <= tr.log[j].win
  {
    var w := tr.log[i].win;
    if tr.log[j].win >= w + 2 {
      assert tr.wins[w].start + 1.0 < tr.wins[w + 1].first <= tr.wins[w + 1].start;
      assert tr.wins[w + 1].start + 1.0 < tr.wins[tr.log[j].win].first;
    }
  }

  lemma {:induction false} FirstIsEarlier(tr: Trace, cap: nat, a: real, w: nat, x: Admit)
    requires SpansOk(tr.wins) && LogOk(tr, cap) && FirstsOk(tr, cap) && cap > 0
    requires x in tr.log && x.win == w + 1 && x.time <= a + 1.0
    ensures exists y :: y in tr.log && y.win == w && !(a <= y.time <= a + 1.0)
  {
    hide OfWin;
    var j :| 0 <= j < |tr.log| && tr.log[j] == x;
    var y := Admit(tr.wins[w].first, w);
    assert tr.wins[w].start + 1.0 < tr.wins[w + 1].first <= x.time;
    assert y in tr.log && y.time < a;
  }

  /** In any second at most two windows admit, and the older one's first admission lies before that second. */
  lemma {:induction false} TwoWindows(tr: Trace, cap: nat, a: real)
    requires SpansOk(tr.wins) && LogOk(tr, cap) && FirstsOk(tr, cap)
    ensures InSecond(Times(tr.log), a) <= if cap == 0 then 0 else 2 * cap - 1
  {
    hide Hits, OfWin, InSecond, SpansOk, FirstsOk, Times;
    if i :| 0 <= i < |tr.log| && a <= tr.log[i].time <= a + 1.0 {
      var k := Earliest(tr.log, a, i);
      var w := tr.log[k].win;
      NearbyWindows(tr, cap, a, k);
      HitsSplit(tr.log, a, w);
      HitsWithin(tr.log, a, w);
      HitsWithin(tr.log, a, w + 1);
      OfWinSome(tr.log, k);
      if x :| x in tr.log && a <= x.time <= a + 1.0 && x.win == w + 1 {
        FirstIsEarlier(tr, cap, a, w, x);
      }
    } else {
      HitsSplit(tr.log, a, 0);
      HitsWithin(tr.log, a, 0);
      HitsWithin(tr.log, a, 1);
    }
  }

  lemma {:induction false} OfWinSome(log: seq<Admit>, k: nat)
    requires k < |log|
    ensures OfWin(log, log[k].win) > 0
  {
    if k < |log| - 1 { OfWinSome(log[..|log| - 1], k); }
  }

  lemma {:induction false} Earliest(log: seq<Admit>, a: real, i: nat) returns (k: nat)
    requires i < |log| && a <= log[i].time <= a + 1.0
    ensures k < |log| && a <= log[k].time <= a + 1.0
    ensures forall j :: 0 <= j < k ==> !(a <= log[j].time <= a + 1.0)
  {
    k := 0;
    while !(a <= log[k].time <= a + 1.0)
      invariant k <= i
      invariant forall j :: 0 <= j < k ==> !(a <= log[j].time <= a + 1.0)
      decreases i - k
    {
      k := k + 1;
    }
  }

  /** Over any run, with other clients' requests, grants and cleanups interleaved, every closed second admits
      at most 2*floor(rate + burst) - 1 requests of the client (none if the limit is below one). */
  lemma {:induction false} AtMostTwoWindowsPerSecond(zone: nat, events: seq<Event>, key: Key, rate: real,
                                                     burst: real, a: real)
    requires Timed(events) && FittingRun(zone, events) && rate > 0.0
    requires forall i :: 0 <= i < |events| ==> Steady(events[i], key, rate, burst)
    ensures var cap := Limit(rate, burst).Floor;
      InSecond(AdmitTimes(zone, events, key), a) <= if cap == 0 then 0 else 2 * cap - 1
  {
    hide TraceOf, OfWin, InSecond, AdmitTimes, Exec;
    var end := if events == [] then 0.0 else Finish(events[|events| - 1]);
    TraceAlways(zone, events, key, rate, burst, end);
    TwoWindows(TraceOf(zone, events, key), Limit(rate, burst).Floor, a);
  }

  /** `n` requests of a busy client: one at 0, up to the limit at 1, the rest at 1.5. */
  function BusyRun(key: Key, rate: real, burst: real, cap: nat, n: nat): (events: seq<Event>)
    ensures |events| == n
    ensures forall i :: 0 <= i < n ==> events[i] == Request(key, rate, burst, BusyTime(cap, i), BusyTime(cap, i))
  {
    if n == 0 then []
    else
      var prior := BusyRun(key, rate, burst, cap, n - 1);
      prior + [Request(key, rate, burst, BusyTime(cap, n - 1), BusyTime(cap, n - 1))]
  }

  function BusyTime(cap: nat, i: nat): real { if i == 0 then 0.0 else if i < cap then 1.0 else 1.5 }

  /** The bound is reached, for every rate and burst: a busy client that is admitted at all gets 2*floor(rate + burst)
      - 1 requests through in the second from 1 to 2. */
  lemma {:induction false} BoundIsReached(zone: nat, key: Key, rate: real, burst: real)
    requires rate > 0.0 && Limit(rate, burst) >= 1.0
    ensures var cap := Limit(rate, burst).Floor;
      var events := BusyRun(key, rate, burst, cap, 2 * cap);
      && Timed(events) && FittingRun(zone, events)
      && (forall i :: 0 <= i < |events| ==> Steady(events[i], key, rate, burst))
      && InSecond(AdmitTimes(zone, events, key), 1.0) == 2 * cap - 1
  {
    hide Exec, AdmitTimes, InSecond, BusyRun;
    var cap := Limit(rate, burst).Floor;
    BusyRunAdmits(zone, key, rate, burst, cap, 2 * cap);
  }

  lemma {:induction false} BusyRunAdmits(zone: nat, key: Key, rate: real, burst: real, cap: nat, n: nat)
    requires rate > 0.0 && cap == Limit(rate, burst).Floor && 1 <= cap && n <= 2 * cap
    ensures var events := BusyRun(key, rate, burst, cap, n);
      var s := Exec(zone, events);
      && s.bursts == map[]
      && (if n == 0 then s.windows == map[]
          else key in s.windows && s.windows[key] == if n <= cap then Window(n, 0.0) else Window(n - cap, 1.5))
      && InSecond(AdmitTimes(zone, events, key), 1.0) == if n == 0 then 0 else n - 1
  {
    hide Exec, AdmitTimes, InSecond, Cleaned, Limit;
    NothingYet(zone, key);
    if n > 0 {
      var prior := BusyRun(key, rate, burst, cap, n - 1);
      var e := Request(key, rate, burst, BusyTime(cap, n - 1), BusyTime(cap, n - 1));
      BusyRunAdmits(zone, key, rate, burst, cap, n - 1);
      AppendEvent(zone, prior, e, key);
      AdmitsExactly(Exec(zone, prior), key, e, cap);
      InSecondNext(AdmitTimes(zone, prior, key), e.now);
    }
  }

  lemma {:induction false} NothingYet(zone: nat, key: Key)
    ensures Exec(zone, []) == EMPTY && AdmitTimes(zone, [], key) == [] && InSecond([], 1.0) == 0
  {
  }

  lemma {:induction false} InSecondNext(times: seq<real>, t: real)
    ensures InSecond(times + [t], 1.0) == InSecond(times, 1.0) + if 1.0 <= t <= 2.0 then 1 else 0
  {
    assert (times + [t])[..|times|] == times;
  }

  lemma {:induction false} AppendEvent(zone: nat, events: seq<Event>, e: Event, key: Key)
    ensures Exec(zone, events + [e]) == Step(zone, Exec(zone, events), e)
    ensures AdmitTimes(zone, events + [e], key)
         == AdmitTimes(zone, events, key) + if Admits(Exec(zone, events), e, key) then [e.now] else []
  {
    assert (events + [e])[..|events|] == events;
  }

  // ---- Cleanup is invisible -------------------------------------------------------------------

  /** The answers of a run, request by request. */
  function Answers(zone: nat, s: Limiter, events: seq<Event>): (r: seq<bool>)
    decreases |events|
  {
    if events == [] then []
    else
      var e := events[0];
      (if e.Request? then [Allowed(s, e.key, e.rate, e.burst, e.now, e.tick).1] else [])
      + Answers(zone, Step(zone, s, e), events[1..])
  }

  ghost predicate FitsFrom(zone: nat, s: Limiter, events: seq<Event>)
    decreases |events|
  {
    events != [] ==> Fits(zone, s, events[0]) && FitsFrom(zone, Step(zone, s, events[0]), events[1..])
  }

  function WithoutCleanups(events: seq<Event>): (r: seq<Event>)
    decreases |events|
  {
    if events == [] then []
    else (if events[0].Cleanup? then [] else [events[0]]) + WithoutCleanups(events[1..])
  }

  /** `s` is `t` less some windows and grants that are already out of date at `now`. */
  ghost predicate Trimmed(s: Limiter, t: Limiter, now: real) {
    && (forall k :: k in s.windows ==> k in t.windows && s.windows[k] == t.windows[k])
    && (forall k :: k in t.windows && k !in s.windows ==> now - t.windows[k].start > 1.0)
    && (forall k :: k in s.bursts ==> k in t.bursts && s.bursts[k] == t.bursts[k])
    && (forall k :: k in t.bursts && k !in s.bursts ==> t.bursts[k] <= now)
  }

  lemma {:induction false} TrimmedAnswers(zone: nat, s: Limiter, t: Limiter, events: seq<Event>, now: real)
    requires Timed(events) && 0.0 <= now && (events != [] ==> now <= events[0].now) && Trimmed(s, t, now)
    requires FitsFrom(zone, s, events)
    ensures Answers(zone, s, events) == Answers(zone, t, WithoutCleanups(events))
    decreases |events|
  {
    if events != [] {
      var e, rest := events[0], events[1..];
      assert forall i :: 0 <= i < |rest| ==> rest[i] == events[i + 1];
      if e.Cleanup? {
        TrimmedAnswers(zone, Step(zone, s, e), t, rest, e.now);
        assert [] + Answers(zone, Step(zone, s, e), rest) == Answers(zone, Step(zone, s, e), rest);
        assert WithoutCleanups(events) == WithoutCleanups(rest);
      } else {
        TrimmedStep(zone, s, t, e, now);
        TrimmedAnswers(zone, Step(zone, s, e), Step(zone, t, e), rest, e.now);
        var w := WithoutCleanups(events);
        assert w == [e] + WithoutCleanups(rest);
        assert w[0] == e && w[1..] == WithoutCleanups(rest);
      }
    }
  }

  lemma {:induction false} TrimmedStep(zone: nat, s: Limiter, t: Limiter, e: Event, now: real)
    requires !e.Cleanup? && 0.0 <= now <= e.now && Trimmed(s, t, now)
    ensures Trimmed(Step(zone, s, e), Step(zone, t, e), e.now)
    ensures e.Request? ==>
      Allowed(s, e.key, e.rate, e.burst, e.now, e.tick).1 == Allowed(t, e.key, e.rate, e.burst, e.now, e.tick).1
  {
  }

  lemma {:induction false} FitsOnwards(zone: nat, events: seq<Event>, i: nat)
    requires FittingRun(zone, events) && i <= |events|
    ensures FitsFrom(zone, Exec(zone, events[..i]), events[i..])
    decreases |events| - i
  {
    hide Fits, Step;
    if i < |events| {
      assert events[i..][1..] == events[i + 1..] && events[..i + 1][..i] == events[..i];
      FitsOnwards(zone, events, i + 1);
    }
  }

  /** Interleaving cleanups that do not overflow anywhere in a run changes none of its answers. */
  lemma {:induction false} CleanupInvisible(zone: nat, events: seq<Event>)
    requires Timed(events) && FittingRun(zone, events)
    ensures Answers(zone, EMPTY, events) == Answers(zone, EMPTY, WithoutCleanups(events))
  {
    assert events[..0] == [] && events[0..] == events;
    FitsOnwards(zone, events, 0);
    hide Answers, FitsFrom;
    TrimmedAnswers(zone, EMPTY, EMPTY, events, 0.0);
  }

  // ---- The conditions are needed ------------------------------------------------------------------

  /** A cleanup is its age pass alone if and only if the windows left by that pass fit the zone. */
  lemma {:induction false} NoOverflowIsAging(s: Limiter, zone: nat, now: real, order: seq<Key>)
    requires IsOrder(order, Aged(s, now).windows)
    ensures Cleaned(s, zone, now, order) == Aged(s, now) <==> |Aged(s, now).windows| <= zone
  {
    hide Aged;
    if |Aged(s, now).windows| > zone {
      assert order[0] in Leading(order, |order| - zone) && order[0] !in Cleaned(s, zone, now, order).windows;
    }
  }

  /** The keys a cleanup evicts because the zone overflows. */
  function Evicted(s: Limiter, zone: nat, now: real, order: seq<Key>): (r: set<Key>)
  {
    var excess := |Aged(s, now).windows| - zone;
    if excess <= 0 || excess > |order| then {} else Leading(order, excess)
  }

  /** A cleanup changes the answer to a later request, in every state and for every zone size, if and only if it evicts
      the client for overflow while the client's window is current and used up and no grant is in force; the request
      is then admitted. */
  lemma {:induction false} CleanupChangesExactly(s: Limiter, zone: nat, c: real, order: seq<Key>, e: Event, cap: nat)
    requires e.Request? && e.rate > 0.0 && 0.0 <= c <= e.now && IsOrder(order, Aged(s, c).windows)
    requires cap == Limit(e.rate, e.burst).Floor
    ensures Admits(Cleaned(s, zone, c, order), e, e.key) != Admits(s, e, e.key) <==>
      && e.key in Evicted(s, zone, c, order) && !Privileged(s, e)
      && e.key in s.windows && e.now - s.windows[e.key].start <= 1.0
      && s.windows[e.key].count >= cap >= 1
    ensures Admits(s, e, e.key) ==> Admits(Cleaned(s, zone, c, order), e, e.key)
  {
    var t := Cleaned(s, zone, c, order);
    AdmitsExactly(s, e.key, e, cap);
    AdmitsExactly(t, e.key, e, cap);
    hide Admits;
    assert Privileged(t, e) <==> Privileged(s, e);
    assert e.key in t.windows <==> e.key in Aged(s, c).windows && e.key !in Evicted(s, zone, c, order);
  }

  /** The name of the `i`-th client of a crowd. */
  function Name(i: nat): (k: Key)
    ensures |k| == i
  {
    seq(i, j => 'x')
  }

  function CrowdRun(n: nat): (events: seq<Event>)
  {
    if n == 0 then [] else CrowdRun(n - 1) + [Request(Name(n - 1), 1.0, 0.0, 0.0, 0.0)]
  }

  /** The windows the crowd leaves, and its keys in the order in which they were inserted. */
  function Crowd(n: nat): (windows: map<Key, Window>)
  {
    if n == 0 then map[] else Crowd(n - 1)[Name(n - 1) := Window(1, 0.0)]
  }

  function Insertions(n: nat): (order: seq<Key>)
    ensures |order| == n && (n > 0 ==> order[0] == Name(0))
  {
    if n == 0 then [] else Insertions(n - 1) + [Name(n - 1)]
  }

  lemma {:induction false} CrowdIsOrdered(n: nat)
    ensures IsOrder(Insertions(n), Crowd(n))
    ensures forall k :: k in Crowd(n) ==> |k| < n && Crowd(n)[k] == Window(1, 0.0)
  {
    hide Name, IsOrder;
    if n > 0 {
      CrowdIsOrdered(n - 1);
      OrderGrows(Insertions(n - 1), Crowd(n - 1), Name(n - 1), Window(1, 0.0));
    } else {
      NoOrder();
    }
  }

  lemma {:induction false} NoOrder()
    ensures IsOrder([], map[])
  {
  }

  lemma {:induction false} OrderGrows(order: seq<Key>, windows: map<Key, Window>, k: Key, w: Window)
    requires IsOrder(order, windows) && k !in windows
    ensures IsOrder(order + [k], windows[k := w])
  {
    assert windows[k := w].Keys == windows.Keys + {k};
  }

  lemma {:induction false} CrowdWindows(zone: nat, n: nat)
    ensures Exec(zone, CrowdRun(n)) == Limiter(Crowd(n), map[])
  {
    hide Step, Exec, AdmitTimes, Name, Admits, IsOrder, InSecond;
    NothingYet(zone, "");
    if n > 0 {
      CrowdWindows(zone, n - 1);
      CrowdIsOrdered(n - 1);
      AppendEvent(zone, CrowdRun(n - 1), Request(Name(n - 1), 1.0, 0.0, 0.0, 0.0), "");
      FirstRequest(zone, Limiter(Crowd(n - 1), map[]), Name(n - 1));
    }
  }

  lemma {:induction false} FirstRequest(zone: nat, s: Limiter, k: Key)
    requires k !in s.windows
    ensures Step(zone, s, Request(k, 1.0, 0.0, 0.0, 0.0)) == s.(windows := s.windows[k := Window(1, 0.0)])
  {
    hide Cleaned, Granted;
  }

  /** The order in which Python's dictionary of windows lists its keys: as they were first inserted, whatever has
      happened to them since, less those deleted. */
  function DictionaryOrder(zone: nat, events: seq<Event>): (order: seq<Key>)
  {
    if events == [] then []
    else
      var order := DictionaryOrder(zone, events[..|events| - 1]);
      match events[|events| - 1]
      case Request(k, rate, _, _, _) => if rate <= 0.0 || k in order then order else order + [k]
      case Grant(_, _, _) => order
      case Cleanup(_, _) => Remaining(order, Exec(zone, events).windows)
  }

  function Remaining(order: seq<Key>, windows: map<Key, Window>): (r: seq<Key>)
  {
    if order == [] then []
    else
      var front, last := order[..|order| - 1], order[|order| - 1];
      Remaining(front, windows) + if last in windows then [last] else []
  }

  lemma {:induction false} AllRemain(order: seq<Key>, windows: map<Key, Window>)
    requires forall k :: k in order ==> k in windows
    ensures Remaining(order, windows) == order
  {
    if order != [] { AllRemain(order[..|order| - 1], windows); }
  }

  lemma {:induction false} CrowdOrder(zone: nat, n: nat)
    ensures DictionaryOrder(zone, CrowdRun(n)) == Insertions(n)
    ensures forall k :: k in Insertions(n) ==> |k| < n
  {
    hide Name, Exec;
    if n > 0 {
      CrowdOrder(zone, n - 1);
      var prior, e := CrowdRun(n - 1), Request(Name(n - 1), 1.0, 0.0, 0.0, 0.0);
      assert (prior + [e])[..|prior|] == prior;
    }
  }

  /** For every zone size there is a run that overflows it: with one client more than the zone holds, each having used
      up its limit of one, a cleanup in dictionary order evicts the first client and so admits it again. */
  lemma {:induction false} OverflowReadmits(zone: nat)
    ensures var s := Exec(zone, CrowdRun(zone + 1));
      var order := Remaining(DictionaryOrder(zone, CrowdRun(zone + 1)), Aged(s, 0.0).windows);
      var e := Request(Name(0), 1.0, 0.0, 0.0, 0.0);
      && IsOrder(order, Aged(s, 0.0).windows)
      && !Admits(s, e, e.key) && Admits(Step(zone, s, Cleanup(0.0, order)), e, e.key)
  {
    hide Exec, CrowdRun, Insertions, Name, DictionaryOrder, Remaining, Aged, IsOrder, Cleaned, Admits;
    CrowdState(zone, zone + 1);
    OverflowReadmitsFirst(Exec(zone, CrowdRun(zone + 1)), zone, Insertions(zone + 1),
                          Request(Name(0), 1.0, 0.0, 0.0, 0.0));
  }

  /** What the crowd leaves: its windows, all young, listed by the dictionary in order of insertion. */
  lemma {:induction false} CrowdState(zone: nat, n: nat)
    requires n > 0
    ensures var s := Exec(zone, CrowdRun(n));
      && s.bursts == map[] && Aged(s, 0.0).windows == s.windows
      && Remaining(DictionaryOrder(zone, CrowdRun(n)), s.windows) == Insertions(n)
      && IsOrder(Insertions(n), s.windows) && |Insertions(n)| == n
      && Insertions(n)[0] == Name(0) && Name(0) in s.windows && s.windows[Name(0)] == Window(1, 0.0)
  {
    var s := Exec(zone, CrowdRun(n));
    CrowdWindows(zone, n);
    CrowdIsOrdered(n);
    CrowdOrder(zone, n);
    FirstIsThere(Insertions(n), Crowd(n));
    hide Exec, CrowdRun, Crowd, Insertions, Name, DictionaryOrder, Remaining;
    assert Aged(s, 0.0).windows == s.windows;
    AllRemain(Insertions(n), s.windows);
  }

  lemma {:induction false} FirstIsThere(order: seq<Key>, windows: map<Key, Window>)
    requires IsOrder(order, windows) && order != []
    ensures order[0] in windows && order[0] in order[..1]
  {
  }

  lemma {:induction false} OverflowReadmitsFirst(s: Limiter, zone: nat, order: seq<Key>, e: Event)
    requires e.Request? && e == Request(e.key, 1.0, 0.0, 0.0, 0.0)
    requires s.bursts == map[] && Aged(s, 0.0).windows == s.windows
    requires IsOrder(order, s.windows) && |order| == zone + 1 && order[0] == e.key && s.windows[e.key] == Window(1, 0.0)
    ensures !Admits(s, e, e.key) && Admits(Cleaned(s, zone, 0.0, order), e, e.key)
  {
    assert order[0] in order[..1];
    assert Limit(1.0, 0.0).Floor == 1;
    AdmitsExactly(s, e.key, e, 1);
    CleanupChangesExactly(s, zone, 0.0, order, e, 1);
  }

  /** A grant of two seconds at time 0, then `n` requests at time 1. */
  function GrantRun(key: Key, rate: real, burst: real, n: nat): (events: seq<Event>)
    ensures |events| == n + 1 && events[0] == Grant(key, 0.0, 2.0)
    ensures forall i :: 1 <= i <= n ==> events[i] == Request(key, rate, burst, 1.0, 1.0)
  {
    if n == 0 then [Grant(key, 0.0, 2.0)]
    else GrantRun(key, rate, burst, n - 1) + [Request(key, rate, burst, 1.0, 1.0)]
  }

  /** With a burst grant there is no bound, for every rate and every positive burst: any number of requests is admitted
      within one second. (Without a burst a grant changes nothing: `Steady` admits it.) */
  lemma {:induction false} GrantLiftsBound(zone: nat, key: Key, rate: real, burst: real, n: nat)
    requires rate > 0.0 && burst > 0.0
    ensures var events := GrantRun(key, rate, burst, n);
      Timed(events) && FittingRun(zone, events) && InSecond(AdmitTimes(zone, events, key), 1.0) == n
  {
    hide GrantRun, InSecond, AdmitTimes, Exec;
    GrantRunAdmits(zone, key, rate, burst, n);
  }

  lemma {:induction false} GrantRunAdmits(zone: nat, key: Key, rate: real, burst: real, n: nat)
    requires rate > 0.0 && burst > 0.0
    ensures var events := GrantRun(key, rate, burst, n);
      && InSecond(AdmitTimes(zone, events, key), 1.0) == n
      && key in Exec(zone, events).bursts && Exec(zone, events).bursts[key] == 2.0
  {
    hide InSecond, Cleaned, Exec, AdmitTimes;
    NothingYet(zone, key);
    if n == 0 {
      var grant := Grant(key, 0.0, 2.0);
      assert GrantRun(key, rate, burst, 0) == [] + [grant];
      AppendEvent(zone, [], grant, key);
    } else {
      var prior, e := GrantRun(key, rate, burst, n - 1), Request(key, rate, burst, 1.0, 1.0);
      GrantRunAdmits(zone, key, rate, burst, n - 1);
      AppendEvent(zone, prior, e, key);
      InSecondNext(AdmitTimes(zone, prior, key), 1.0);
    }
  }
}
