/** Passive health checks of upstream servers (proxy/health_check.py). Times are readings of one monotone clock. */
module Health {
  import opened Bytes

  type Key = string

  datatype Record = Record(failures: nat, lastFailure: real, unavailable: bool, since: real, total: nat)

  type Monitor = map<Key, Record>

  const NEW := Record(0, 0.0, false, 0.0, 0)

  function Failed(r: Record, maxFailures: int, timeout: real, now: real): (s: Record)
  {
    var before := if now - r.lastFailure > timeout then 0 else r.failures;
    var n := before + 1;
    if n >= maxFailures then Record(n, now, true, now, r.total + 1)
    else Record(n, now, r.unavailable, r.since, r.total + 1)
  }

  function Succeeded(r: Record): (s: Record) { r.(failures := 0, unavailable := false) }

  /** `is_available` also resets a server whose time-out has passed. */
  function Queried(r: Record, timeout: real, now: real): (s: (Record, bool))
  {
    if !r.unavailable then (r, true)
    else if now - r.since > timeout then (r.(unavailable := false, failures := 0), true)
    else (r, false)
  }

  class HealthMonitor {
    const maxFailures: int
    const failTimeout: real
    var servers: Monitor

    constructor (maxFailures: int, failTimeout: real)
      ensures this.maxFailures == maxFailures && this.failTimeout == failTimeout && servers == map[]
    {
      this.maxFailures, this.failTimeout, servers := maxFailures, failTimeout, map[];
    }

    method RecordFailure(key: Key, now: real)
      modifies this
      ensures servers == FailureIn(old(servers), key, maxFailures, failTimeout, now)
    {
      var health := if key in servers then servers[key] else NEW;
      if now - health.lastFailure > failTimeout { health := health.(failures := 0); }
      health := health.(failures := health.failures + 1);
      health := health.(total := health.total + 1);
      health := health.(lastFailure := now);
      if health.failures >= maxFailures {
        health := health.(unavailable := true, since := now);
      }
      servers := servers[key := health];
    }

    method RecordSuccess(key: Key)
      modifies this
      ensures servers == SuccessIn(old(servers), key)
    {
      if key !in servers { return; }
      servers := servers[key := servers[key].(failures := 0, unavailable := false)];
    }

    method IsAvailable(key: Key, now: real) returns (available: bool)
      modifies this
      ensures (servers, available) == QueryIn(old(servers), key, failTimeout, now)
    {
      if key !in servers { return true; }
      var health := servers[key];
      if !health.unavailable { assert servers == servers[key := health]; return true; }
      if now - health.since > failTimeout {
        servers := servers[key := health.(unavailable := false, failures := 0)];
        return true;
      }
      assert servers == servers[key := health];
      return false;
    }
  }

  function FailureIn(m: Monitor, key: Key, maxFailures: int, timeout: real, now: real): (r: Monitor)
  {
    m[key := Failed(if key in m then m[key] else NEW, maxFailures, timeout, now)]
  }

  function SuccessIn(m: Monitor, key: Key): (r: Monitor) { if key in m then m[key := Succeeded(m[key])] else m }

  function QueryIn(m: Monitor, key: Key, timeout: real, now: real): (r: (Monitor, bool))
  {
    if key !in m then (m, true)
    else var (s, ok) := Queried(m[key], timeout, now); (m[key := s], ok)
  }

  // ---- Runs ------------------------------------------------------------------------------------

  datatype Event = FailureE(key: Key, now: real) | SuccessE(key: Key, now: real) | QueryE(key: Key, now: real)

  function Step(m: Monitor, maxFailures: int, timeout: real, e: Event): (r: Monitor)
  {
    match e
    case FailureE(k, now) => FailureIn(m, k, maxFailures, timeout, now)
    case SuccessE(k, _) => SuccessIn(m, k)
    case QueryE(k, now) => QueryIn(m, k, timeout, now).0
  }

  function Exec(maxFailures: int, timeout: real, events: seq<Event>): (m: Monitor)
  {
    if events == [] then map[]
    else Step(Exec(maxFailures, timeout, events[..|events| - 1]), maxFailures, timeout, events[|events| - 1])
  }

  ghost predicate Timed(events: seq<Event>) {
    && (forall i :: 0 <= i < |events| ==> 0.0 <= events[i].now)
    && (forall i, j :: 0 <= i < j < |events| ==> events[i].now <= events[j].now)
  }

  // ---- The reference: what the history of one server says -------------------------------------------

  /** One server's history: its failures, its successes, and the queries that came after its time-out had passed. */
  datatype Entry = Fail(at: real) | Success | Retry

  /** The length of the chain of failures a history ends with: no success or retry in it, and each failure within the
      time-out of the one before. */
  function Chain(h: seq<Entry>, timeout: real): (n: nat)
    ensures n <= |h|
  {
    if h == [] || !h[|h| - 1].Fail? then 0
    else
      var front, last := h[..|h| - 1], h[|h| - 1];
      if front != [] && front[|front| - 1].Fail? && last.at - front[|front| - 1].at <= timeout
      then Chain(front, timeout) + 1
      else 1
  }

  /** The last failure that completed a chain of `maxFailures`, unless a success or retry has come since. */
  function Mark(h: seq<Entry>, maxFailures: int, timeout: real): (at: Option<real>)
  {
    if h == [] || !h[|h| - 1].Fail? then None
    else if Chain(h, timeout) >= maxFailures then Some(h[|h| - 1].at)
    else Mark(h[..|h| - 1], maxFailures, timeout)
  }

  /** What an event adds to the history of a server: a query is a retry if the server's mark is older than the
      time-out. */
  function Added(h: seq<Entry>, maxFailures: int, timeout: real, e: Event, key: Key): (r: seq<Entry>)
  {
    if e.key != key then []
    else
      match e
      case FailureE(_, now) => [Fail(now)]
      case SuccessE(_, _) => [Success]
      case QueryE(_, now) =>
        var mark := Mark(h, maxFailures, timeout);
        if mark.Some? && now - mark.value > timeout then [Retry] else []
  }

  function History(maxFailures: int, timeout: real, events: seq<Event>, key: Key): (h: seq<Entry>)
  {
    if events == [] then []
    else
      var h := History(maxFailures, timeout, events[..|events| - 1], key);
      h + Added(h, maxFailures, timeout, events[|events| - 1], key)
  }

  /** The history ends in at least `maxFailures` chained failures, the last of them no longer ago than the time-out. */
  predicate Down(h: seq<Entry>, maxFailures: int, timeout: real, now: real) {
    && h != [] && h[|h| - 1].Fail?
    && Chain(h, timeout) >= maxFailures
    && now - h[|h| - 1].at <= timeout
  }

  /** How the stored record of a server relates to its history at clock reading `now`. */
  ghost predicate Matches(m: Monitor, key: Key, h: seq<Entry>, maxFailures: int, timeout: real, now: real) {
    if key !in m then forall i :: 0 <= i < |h| ==> !h[i].Fail?
    else
      var r := m[key];
      && r.lastFailure <= now
      && (if h != [] && h[|h| - 1].Fail? then r.lastFailure == h[|h| - 1].at && r.failures == Chain(h, timeout)
          else r.failures == 0)
      && MarkMatches(r, h, maxFailures, timeout)
  }

  ghost predicate MarkMatches(r: Record, h: seq<Entry>, maxFailures: int, timeout: real) {
    var mark := Mark(h, maxFailures, timeout);
    && (r.unavailable <==> mark.Some?)
    && (mark.Some? ==>
          && r.since == mark.value
          && (Chain(h, timeout) < maxFailures ==> r.lastFailure - r.since > timeout))
  }

  lemma {:induction false} AfterFailure(h: seq<Entry>, maxFailures: int, timeout: real, at: real)
    ensures Chain(h + [Fail(at)], timeout)
         == if h != [] && h[|h| - 1].Fail? && at - h[|h| - 1].at <= timeout then Chain(h, timeout) + 1 else 1
    ensures Mark(h + [Fail(at)], maxFailures, timeout)
         == if Chain(h + [Fail(at)], timeout) >= maxFailures then Some(at) else Mark(h, maxFailures, timeout)
  {
    assert (h + [Fail(at)])[..|h|] == h;
  }

  lemma {:induction false} AfterOther(h: seq<Entry>, maxFailures: int, timeout: real, x: Entry)
    requires !x.Fail?
    ensures Chain(h + [x], timeout) == 0 && Mark(h + [x], maxFailures, timeout).None?
  {
  }

  lemma {:induction false} FailureMatches(m: Monitor, key: Key, h: seq<Entry>,
                                          maxFailures: int, timeout: real, now: real)
    requires Matches(m, key, h, maxFailures, timeout, now)
    ensures Matches(FailureIn(m, key, maxFailures, timeout, now), key, h + [Fail(now)], maxFailures, timeout, now)
  {
    AfterFailure(h, maxFailures, timeout, now);
    MarkNeedsFailure(h, maxFailures, timeout);
    hide Chain, Mark;
    var h' := h + [Fail(now)];
    assert h'[|h'| - 1] == Fail(now);
  }

  lemma {:induction false} MarkNeedsFailure(h: seq<Entry>, maxFailures: int, timeout: real)
    ensures Mark(h, maxFailures, timeout).Some? ==> h != [] && h[|h| - 1].Fail?
    ensures h != [] && h[|h| - 1].Fail? && Chain(h, timeout) >= maxFailures ==>
      Mark(h, maxFailures, timeout) == Some(h[|h| - 1].at)
  {
  }

  lemma {:induction false} StepMatches(m: Monitor, key: Key, h: seq<Entry>, maxFailures: int, timeout: real, e: Event)
    requires Matches(m, key, h, maxFailures, timeout, e.now)
    ensures Matches(Step(m, maxFailures, timeout, e), key, h + Added(h, maxFailures, timeout, e, key),
                    maxFailures, timeout, e.now)
  {
    assert h + [] == h;
    MarkNeedsFailure(h, maxFailures, timeout);
    AfterOther(h, maxFailures, timeout, Success);
    AfterOther(h, maxFailures, timeout, Retry);
    hide Chain, Mark;
    if e.key == key {
      match e {
        case FailureE(_, now) => FailureMatches(m, key, h, maxFailures, timeout, now);
        case SuccessE(_, _) => assert (h + [Success])[|h|] == Success;
        case QueryE(_, now) => assert (h + [Retry])[|h|] == Retry;
      }
    }
  }

  lemma {:induction false} MatchesAlways(events: seq<Event>, key: Key, maxFailures: int, timeout: real, now: real)
    requires Timed(events) && (forall i :: 0 <= i < |events| ==> events[i].now <= now)
    ensures Matches(Exec(maxFailures, timeout, events), key, History(maxFailures, timeout, events, key),
                    maxFailures, timeout, now)
    decreases |events|
  {
    if events != [] {
      hide Matches, Step, Added;
      var prior, e := events[..|events| - 1], events[|events| - 1];
      assert forall i :: 0 <= i < |prior| ==> prior[i] == events[i];
      MatchesAlways(prior, key, maxFailures, timeout, e.now);
      var m, h := Exec(maxFailures, timeout, prior), History(maxFailures, timeout, prior, key);
      StepMatches(m, key, h, maxFailures, timeout, e);
      MatchesLater(Step(m, maxFailures, timeout, e), key, h + Added(h, maxFailures, timeout, e, key),
                   maxFailures, timeout, e.now, now);
    }
  }

  lemma {:induction false} MatchesLater(m: Monitor, key: Key, h: seq<Entry>,
                                        maxFailures: int, timeout: real, now: real, later: real)
    requires Matches(m, key, h, maxFailures, timeout, now) && now <= later
    ensures Matches(m, key, h, maxFailures, timeout, later)
  {
  }

  /** After any run under a monotone clock, a server is refused exactly when its history ends in `maxFailures` failures,
      each within the time-out of the one before, with no success or retry among or after them, and at most the time-out
      has passed since the last. */
  lemma {:induction false} RefusedExactly(events: seq<Event>, key: Key, maxFailures: int, timeout: real, now: real)
    requires Timed(events) && (forall i :: 0 <= i < |events| ==> events[i].now <= now)
    ensures QueryIn(Exec(maxFailures, timeout, events), key, timeout, now).1
       <==> !Down(History(maxFailures, timeout, events, key), maxFailures, timeout, now)
  {
    MatchesAlways(events, key, maxFailures, timeout, now);
    MarkNeedsFailure(History(maxFailures, timeout, events, key), maxFailures, timeout);
    hide Exec, History, Chain, Mark;
  }

  function FailuresOf(events: seq<Event>, key: Key): (n: nat)
  {
    if events == [] then 0
    else
      var e := events[|events| - 1];
      FailuresOf(events[..|events| - 1], key) + if e.FailureE? && e.key == key then 1 else 0
  }

  /** A server is known exactly once it has failed, and its total is the number of its failures, whatever came
      between. */
  lemma {:induction false} TotalExactly(events: seq<Event>, key: Key, maxFailures: int, timeout: real)
    ensures var m := Exec(maxFailures, timeout, events);
      && (key in m <==> FailuresOf(events, key) > 0)
      && (key in m ==> m[key].total == FailuresOf(events, key))
  {
    if events != [] { TotalExactly(events[..|events| - 1], key, maxFailures, timeout); }
  }
}
