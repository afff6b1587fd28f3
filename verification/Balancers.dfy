/** Load-balancing algorithms (proxy/load_balancer.py). */
module Balancers {
  import opened Bytes

  datatype Server = Server(host: string, port: int, weight: int, down: bool, backup: bool)

  function Where(servers: seq<Server>, keep: Server -> bool): (r: seq<Server>)
    ensures forall s :: s in r <==> s in servers && keep(s)
  {
    if servers == [] then []
    else Where(servers[..|servers| - 1], keep) + if keep(servers[|servers| - 1]) then [servers[|servers| - 1]] else []
  }

  /** Each server as often as its weight says; `range` of a negative weight is empty. */
  function Expand(servers: seq<Server>): (r: seq<Server>)
    ensures forall s :: s in r ==> s in servers
  {
    if servers == [] then []
    else
      var last := servers[|servers| - 1];
      Expand(servers[..|servers| - 1]) + seq(if last.weight > 0 then last.weight else 0, _ => last)
  }

  /** The total weight of the entries equal to `s`. */
  function WeightOf(servers: seq<Server>, s: Server): (n: nat)
  {
    if servers == [] then 0
    else
      var last := servers[|servers| - 1];
      WeightOf(servers[..|servers| - 1], s) + if last == s && s.weight > 0 then s.weight else 0
  }

  lemma {:induction false} RepeatCounts(n: nat, x: Server, s: Server)
    ensures multiset(seq(n, _ => x))[s] == if x == s then n else 0
  {
    if n > 0 {
      RepeatCounts(n - 1, x, s);
      assert seq(n, _ => x) == seq(n - 1, _ => x) + [x];
    }
  }

  lemma {:induction false} ExpandCounts(servers: seq<Server>, s: Server)
    ensures multiset(Expand(servers))[s] == WeightOf(servers, s)
  {
    if servers != [] {
      var front, last := servers[..|servers| - 1], servers[|servers| - 1];
      ExpandCounts(front, s);
      RepeatCounts(if last.weight > 0 then last.weight else 0, last, s);
    }
  }

  // ---- Weighted round robin -------------------------------------------------------------------

  function Primaries(servers: seq<Server>): (r: seq<Server>) { Where(servers, (s: Server) => !s.down && !s.backup) }

  function Backups(servers: seq<Server>): (r: seq<Server>) { Where(servers, (s: Server) => s.backup && !s.down) }

  function Eligible(servers: seq<Server>): (r: seq<Server>)
  {
    if Primaries(servers) != [] then Primaries(servers) else Backups(servers)
  }

  /** `IndexOutOfRange` is the IndexError raised when the stored index lies beyond the weighted list. */
  datatype Pick = NoServer | IndexOutOfRange | Chosen(server: Server)

  function RoundRobinPick(index: nat, servers: seq<Server>): (r: (Pick, nat))
  {
    var weighted := Expand(Eligible(servers));
    if Eligible(servers) == [] then (NoServer, index)
    else if index >= |weighted| then (IndexOutOfRange, index)
    else (Chosen(weighted[index]), (index + 1) % |weighted|)
  }

  /** The nested loops that build the weighted list. */
  method Weighted(available: seq<Server>) returns (weighted: seq<Server>)
    ensures weighted == Expand(available)
  {
    weighted := [];
    var i := 0;
    while i < |available|
      invariant 0 <= i <= |available|
      invariant weighted == Expand(available[..i])
    {
      assert available[..i + 1][..i] == available[..i];
      var server := available[i];
      var j := 0;
      while j < server.weight
        invariant 0 <= j && (server.weight > 0 ==> j <= server.weight) && (server.weight <= 0 ==> j == 0)
        invariant weighted == Expand(available[..i]) + seq(j, _ => server)
      {
        weighted := weighted + [server];
        j := j + 1;
      }
      i := i + 1;
    }
    assert available[..i] == available;
  }

  class RoundRobinBalancer {
    var index: nat

    constructor ()
      ensures index == 0
    {
      index := 0;
    }

    method Select(servers: seq<Server>) returns (r: Pick)
      modifies this
      ensures (r, index) == RoundRobinPick(old(index), servers)
    {
      hide Expand, Where;
      var available := Primaries(servers);
      if available == [] { available := Backups(servers); }
      if available == [] { return NoServer; }
      var weighted := Weighted(available);
      if index >= |weighted| { return IndexOutOfRange; }
      r := Chosen(weighted[index]);
      index := (index + 1) % |weighted|;
    }
  }

  /** A backup is chosen only when no primary server is up, and a server marked down never. */
  lemma {:induction false} BackupOnlyWithoutPrimary(index: nat, servers: seq<Server>)
    requires RoundRobinPick(index, servers).0.Chosen?
    ensures var s := RoundRobinPick(index, servers).0.server;
      s in servers && !s.down && s.weight > 0 && (s.backup <==> Primaries(servers) == [])
  {
    var s := RoundRobinPick(index, servers).0.server;
    ExpandPositive(Eligible(servers), s);
  }

  /** Who is eligible: the servers that are up and no backups, or the backups that are up if there are none. */
  lemma {:induction false} EligibleExactly(servers: seq<Server>, s: Server)
    ensures s in Eligible(servers) <==>
      && s in servers && !s.down
      && (s.backup <==> forall t :: t in servers ==> t.down || t.backup)
  {
    if Primaries(servers) != [] {
      var p := Primaries(servers)[0];
      assert p in Primaries(servers);
    }
  }

  lemma {:induction false} ExpandPositive(servers: seq<Server>, s: Server)
    requires s in Expand(servers)
    ensures s.weight > 0
  {
    var front, last := servers[..|servers| - 1], servers[|servers| - 1];
    if s in Expand(front) { ExpandPositive(front, s); }
  }

  function Picks(index: nat, servers: seq<Server>, n: nat): (r: seq<Pick>)
    decreases n
  {
    if n == 0 then [] else var (p, next) := RoundRobinPick(index, servers); [p] + Picks(next, servers, n - 1)
  }

  function AllChosen(ss: seq<Server>): (r: seq<Pick>) { seq(|ss|, i requires 0 <= i < |ss| => Chosen(ss[i])) }

  function IndexAfter(index: nat, servers: seq<Server>, n: nat): (r: nat)
    decreases n
  {
    if n == 0 then index else IndexAfter(RoundRobinPick(index, servers).1, servers, n - 1)
  }

  lemma {:induction false} PicksInTwo(index: nat, servers: seq<Server>, a: nat, b: nat)
    ensures Picks(index, servers, a + b) == Picks(index, servers, a) + Picks(IndexAfter(index, servers, a), servers, b)
    ensures |Picks(index, servers, a)| == a
    decreases a
  {
    hide RoundRobinPick;
    PicksUnfold(index, servers, a);
    PicksUnfold(index, servers, a + b);
    hide Picks, IndexAfter;
    if a > 0 {
      var (p, next) := RoundRobinPick(index, servers);
      PicksInTwo(next, servers, a - 1, b);
      Regroup([p], Picks(next, servers, a - 1), Picks(IndexAfter(next, servers, a - 1), servers, b));
    } else {
      assert [] + Picks(index, servers, b) == Picks(index, servers, b);
    }
  }

  lemma {:induction false} PicksUnfold(index: nat, servers: seq<Server>, n: nat)
    ensures n == 0 ==> Picks(index, servers, n) == [] && IndexAfter(index, servers, n) == index
    ensures n > 0 ==>
      var (p, next) := RoundRobinPick(index, servers);
      && Picks(index, servers, n) == [p] + Picks(next, servers, n - 1)
      && IndexAfter(index, servers, n) == IndexAfter(next, servers, n - 1)
  {
    hide RoundRobinPick;
  }

  lemma {:induction false} Regroup(a: seq<Pick>, b: seq<Pick>, c: seq<Pick>)
    ensures a + (b + c) == a + b + c
  {
  }

  lemma {:induction false} OnePick(index: nat, servers: seq<Server>)
    requires index < |Expand(Eligible(servers))|
    ensures var w := Expand(Eligible(servers));
      RoundRobinPick(index, servers) == (Chosen(w[index]), if index + 1 == |w| then 0 else index + 1)
  {
    hide Eligible, Expand;
    if Eligible(servers) == [] { ExpandOfNothing(); }
    NextIndex(index, |Expand(Eligible(servers))|);
  }

  lemma {:induction false} NextIndex(index: nat, n: nat)
    requires index < n
    ensures (index + 1) % n == if index + 1 == n then 0 else index + 1
  {
  }

  /** Up to the end of the weighted list, the picks are the list read off from the index. */
  lemma {:induction false} PicksReadOff(index: nat, servers: seq<Server>, n: nat)
    requires n > 0 && index + n <= |Expand(Eligible(servers))|
    ensures var w := Expand(Eligible(servers));
      && Picks(index, servers, n) == AllChosen(w[index..index + n])
      && IndexAfter(index, servers, n) == if index + n == |w| then 0 else index + n
    decreases n
  {
    hide Expand, Eligible, RoundRobinPick;
    var w := Expand(Eligible(servers));
    OnePick(index, servers);
    if n > 1 {
      PicksReadOff(index + 1, servers, n - 1);
      assert w[index..index + n] == [w[index]] + w[index + 1..index + n];
      assert AllChosen(w[index..index + n]) == [Chosen(w[index])] + AllChosen(w[index + 1..index + n]);
    } else {
      assert Picks(RoundRobinPick(index, servers).1, servers, 0) == [];
    }
  }

  /** A full cycle from any index is the weighted list, rotated. */
  lemma {:induction false} CycleRotates(index: nat, servers: seq<Server>)
    requires index < |Expand(Eligible(servers))|
    ensures var w := Expand(Eligible(servers));
      Picks(index, servers, |w|) == AllChosen(w[index..] + w[..index])
  {
    hide Expand, Eligible, RoundRobinPick;
    var w := Expand(Eligible(servers));
    var left := |w| - index;
    PicksInTwo(index, servers, left, index);
    PicksReadOff(index, servers, left);
    assert w[index..index + left] == w[index..];
    if index > 0 {
      PicksReadOff(0, servers, index);
      assert w[0..index] == w[..index];
    } else {
      assert Picks(IndexAfter(index, servers, left), servers, index) == AllChosen(w[..index]);
    }
    AllChosenJoins(w[index..], w[..index]);
  }

  lemma {:induction false} AllChosenJoins(a: seq<Server>, b: seq<Server>)
    ensures AllChosen(a + b) == AllChosen(a) + AllChosen(b)
  {
  }

  lemma {:induction false} IndexStaysInRange(index: nat, servers: seq<Server>, n: nat)
    requires index < |Expand(Eligible(servers))|
    ensures IndexAfter(index, servers, n) < |Expand(Eligible(servers))|
    decreases n
  {
    hide Expand, Eligible, RoundRobinPick;
    if n > 0 {
      OnePick(index, servers);
      IndexStaysInRange(RoundRobinPick(index, servers).1, servers, n - 1);
    }
  }

  /** Over an unchanged list with positive total weight W, every window of W consecutive picks selects each eligible
      server exactly as often as its weight. */
  lemma {:induction false} WindowIsFair(index: nat, servers: seq<Server>, n: nat, j: nat)
    requires index < |Expand(Eligible(servers))| && j + |Expand(Eligible(servers))| <= n
    ensures |Picks(index, servers, n)| == n
    ensures var W := |Expand(Eligible(servers))|;
      && multiset(Picks(index, servers, n)[j..j + W]) == multiset(AllChosen(Expand(Eligible(servers))))
      && forall s :: multiset(Picks(index, servers, n)[j..j + W])[Chosen(s)] == WeightOf(Eligible(servers), s)
  {
    hide Expand, Eligible, Picks, AllChosen, WeightOf, IndexAfter;
    var w := Expand(Eligible(servers));
    var W := |w|;
    var i := IndexAfter(index, servers, j);
    IndexStaysInRange(index, servers, j);
    PicksInTwo(index, servers, n, 0);
    PicksInTwo(index, servers, j, n - j);
    PicksInTwo(i, servers, W, n - j - W);
    CycleRotates(i, servers);
    var window := Picks(index, servers, n)[j..j + W];
    assert window == Picks(i, servers, W);
    var turned := w[i..] + w[..i];
    assert w == w[..i] + w[i..];
    AllChosenCounts(turned, w);
    forall s ensures multiset(window)[Chosen(s)] == WeightOf(Eligible(servers), s) {
      ChosenCount(w, s);
      ExpandCounts(Eligible(servers), s);
    }
  }

  lemma {:induction false} ChosenCount(ss: seq<Server>, s: Server)
    ensures multiset(AllChosen(ss))[Chosen(s)] == multiset(ss)[s]
  {
    if ss != [] {
      var front, last := ss[..|ss| - 1], ss[|ss| - 1];
      ChosenCount(front, s);
      assert ss == front + [last] && AllChosen(ss) == AllChosen(front) + [Chosen(last)];
    }
  }

  lemma {:induction false} AllChosenCounts(a: seq<Server>, b: seq<Server>)
    requires multiset(a) == multiset(b)
    ensures multiset(AllChosen(a)) == multiset(AllChosen(b))
  {
    forall p: Pick ensures multiset(AllChosen(a))[p] == multiset(AllChosen(b))[p] {
      if p.Chosen? {
        ChosenCount(a, p.server);
        ChosenCount(b, p.server);
      } else {
        assert p !in AllChosen(a) && p !in AllChosen(b);
      }
    }
  }

  /** The stored index is checked against no list. Over an unchanged list a pick raises if and only if something is
      eligible and the index lies beyond the total weight at the outset; then every pick does. */
  lemma {:induction false} RaisesExactly(index: nat, servers: seq<Server>, n: nat, k: nat)
    requires k < n
    ensures |Picks(index, servers, n)| == n
    ensures Picks(index, servers, n)[k] == IndexOutOfRange <==>
      Eligible(servers) != [] && index >= |Expand(Eligible(servers))|
    decreases n
  {
    hide Expand, Eligible;
    var w := Expand(Eligible(servers));
    if index < |w| { OnePick(index, servers); }
    if k > 0 { RaisesExactly(RoundRobinPick(index, servers).1, servers, n - 1, k - 1); }
    else { PicksInTwo(index, servers, n, 0); }
  }

  /** Starting in range, the index after `j` picks is counted round the weighted list. */
  lemma {:induction false} IndexGoesRound(index: nat, servers: seq<Server>, j: nat)
    requires index < |Expand(Eligible(servers))|
    ensures IndexAfter(index, servers, j) == (index + j) % |Expand(Eligible(servers))|
    decreases j
  {
    hide Expand, Eligible, RoundRobinPick;
    var W := |Expand(Eligible(servers))|;
    OnePick(index, servers);
    if j > 0 {
      var next := RoundRobinPick(index, servers).1;
      IndexGoesRound(next, servers, j - 1);
      if next == 0 { WrapsRound(j - 1, W); }
    } else {
      SmallIsOwnRemainder(index, W);
    }
  }

  lemma {:induction false} SmallIsOwnRemainder(n: nat, W: nat)
    requires n < W
    ensures n % W == n
  {
  }

  lemma {:induction false} WrapsRound(n: nat, W: nat)
    requires W > 0
    ensures (n + W) % W == n % W
  {
    var m := n + W;
    SameRemainder(W, m / W, m % W, n / W + 1, n % W);
  }

  lemma {:induction false} SameRemainder(W: nat, q: int, r: nat, p: int, s: nat)
    requires W * q + r == W * p + s && r < W && s < W
    ensures r == s
  {
    Spreads(W, q, p);
    Spreads(W, p, q);
    assert q == p;
  }

  lemma {:induction false} Spreads(W: nat, q: int, p: int)
    ensures q > p ==> W * q >= W * p + W
  {
    if q > p { Grows(W, p, q - p - 1); }
  }

  lemma {:induction false} Grows(W: nat, p: int, d: nat)
    ensures W * (p + 1 + d) >= W * p + W
  {
    assert W * (p + 1 + d) == W * p + W + W * d;
  }

  /** Switching to another list after `j` picks raises, at once and from then on, if and only if something there is
      eligible and the index reached lies beyond its total weight. */
  lemma {:induction false} SwitchRaisesExactly(index: nat, servers: seq<Server>, j: nat, others: seq<Server>, n: nat,
                                               k: nat)
    requires index < |Expand(Eligible(servers))| && k < n
    ensures var picks := Picks(IndexAfter(index, servers, j), others, n);
      && |picks| == n
      && (picks[k] == IndexOutOfRange <==>
            Eligible(others) != [] && (index + j) % |Expand(Eligible(servers))| >= |Expand(Eligible(others))|)
  {
    hide Expand, Eligible, RoundRobinPick, Picks, IndexAfter;
    IndexGoesRound(index, servers, j);
    RaisesExactly(IndexAfter(index, servers, j), others, n, k);
  }

  lemma {:induction false} PrimaryIsKept(servers: seq<Server>, s: Server)
    requires !s.down && !s.backup
    ensures Primaries(servers + [s]) == Primaries(servers) + [s]
  {
    assert (servers + [s])[..|servers|] == servers;
  }

  lemma {:induction false} ExpandUnit(servers: seq<Server>, s: Server)
    requires s.weight == 1
    ensures Expand(servers + [s]) == Expand(servers) + [s]
  {
    assert (servers + [s])[..|servers|] == servers;
    assert seq(1, _ => s) == [s];
  }

  /** It gets there when a server goes down: two picks among three servers, then one server fewer. */
  lemma {:induction false} ShrinkingListRaises(a: Server, b: Server, c: Server)
    requires forall s :: s in [a, b, c] ==> s.weight == 1 && !s.down && !s.backup
    ensures var first := RoundRobinPick(0, [a, b, c]);
      var second := RoundRobinPick(first.1, [a, b, c]);
      && first.0 == Chosen(a) && second.0 == Chosen(b)
      && RoundRobinPick(second.1, [a, b, c.(down := true)]).0 == IndexOutOfRange
  {
    hide Expand, Where, Eligible, RoundRobinPick;
    var d := c.(down := true);
    UnitLists(a, b, c);
    OnePick(0, [a, b, c]);
    OnePick(1, [a, b, c]);
    RaisesBeyond(2, [a, b, d]);
  }

  lemma {:induction false} RaisesBeyond(index: nat, servers: seq<Server>)
    requires Eligible(servers) != [] && index >= |Expand(Eligible(servers))|
    ensures RoundRobinPick(index, servers) == (IndexOutOfRange, index)
  {
    hide Expand, Eligible;
  }

  lemma {:induction false} UnitLists(a: Server, b: Server, c: Server)
    requires forall s :: s in [a, b, c] ==> s.weight == 1 && !s.down && !s.backup
    ensures Eligible([a, b, c]) == Expand([a, b, c]) == [a, b, c]
    ensures Eligible([a, b, c.(down := true)]) == Expand([a, b]) == [a, b]
  {
    hide Expand, Where, Primaries;
    assert a in [a, b, c] && b in [a, b, c] && c in [a, b, c];
    NothingEligible();
    assert [] + [a] == [a] && [a] + [b] == [a, b] && [a, b] + [c] == [a, b, c];
    AddUnit([], a);
    AddUnit([a], b);
    AddUnit([a, b], c);
    DownIsDropped([a, b], c.(down := true));
    assert [a, b] + [c.(down := true)] == [a, b, c.(down := true)];
  }

  lemma {:induction false} NothingEligible()
    ensures Primaries([]) == [] && Expand([]) == []
  {
  }

  lemma {:induction false} AddUnit(servers: seq<Server>, s: Server)
    requires Primaries(servers) == servers && Expand(servers) == servers && s.weight == 1 && !s.down && !s.backup
    ensures Primaries(servers + [s]) == servers + [s] && Expand(servers + [s]) == servers + [s]
  {
    hide Expand, Where, Primaries;
    PrimaryIsKept(servers, s);
    ExpandUnit(servers, s);
  }

  lemma {:induction false} DownIsDropped(servers: seq<Server>, s: Server)
    requires s.down
    ensures Primaries(servers + [s]) == Primaries(servers)
  {
    assert (servers + [s])[..|servers|] == servers;
  }

  // ---- Hash of the client address ---------------------------------------------------------------

  function Up(servers: seq<Server>): (r: seq<Server>) { Where(servers, (s: Server) => !s.down) }

  /** The servers that are up, backups included, in their order. */
  lemma {:induction false} UpExactly(servers: seq<Server>, s: Server)
    ensures s in Up(servers) <==> s in servers && !s.down
    ensures Up(servers + [s]) == Up(servers) + if s.down then [] else [s]
  {
    assert (servers + [s])[..|servers|] == servers;
  }

  function TotalWeight(servers: seq<Server>): (n: int)
  {
    if servers == [] then 0 else TotalWeight(servers[..|servers| - 1]) + servers[|servers| - 1].weight
  }

  /** Python's `%` takes the sign of the divisor. */
  function FloorMod(a: int, b: int): int
    requires b != 0
  {
    if b > 0 then a % b else -((-a) % (-b))
  }

  predicate Weighed(servers: seq<Server>) { forall s :: s in servers ==> s.weight >= 0 }

  lemma {:induction false} ExpandLength(servers: seq<Server>)
    requires Weighed(servers)
    ensures |Expand(servers)| == TotalWeight(servers)
  {
    if servers != [] {
      assert forall s :: s in servers[..|servers| - 1] ==> s in servers;
      ExpandLength(servers[..|servers| - 1]);
    }
  }

  lemma {:induction false} ExpandOfNothing()
    ensures Expand([]) == []
  {
  }

  lemma {:induction false} ExpandPrefix(servers: seq<Server>, i: nat)
    requires i < |servers| && Weighed(servers)
    ensures |Expand(servers[..i + 1])| == |Expand(servers[..i])| + servers[i].weight
    ensures |Expand(servers[..i + 1])| <= |Expand(servers)|
    ensures forall k :: |Expand(servers[..i])| <= k < |Expand(servers[..i + 1])| ==> Expand(servers)[k] == servers[i]
    decreases |servers|
  {
    assert servers[i] in servers;
    var front := servers[..|servers| - 1];
    if i == |servers| - 1 {
      assert servers[..i + 1] == servers && servers[..i] == front;
    } else {
      assert servers[..i + 1] == front[..i + 1] && servers[..i] == front[..i] && servers[i] == front[i];
      assert forall s :: s in front ==> s in servers;
      ExpandPrefix(front, i);
      assert Expand(front) <= Expand(servers);
    }
  }

  /** `ip_hash`, with `h` the hash of a non-empty client address: with non-negative weights its subtracting walk is
      indexing the weighted list (backups included) by the hash, so the return after the loop is never reached. */
  method IpHashSelect(servers: seq<Server>, clientIp: string, h: nat)
    returns (r: Option<Server>, ghost fellThrough: bool)
    ensures Up(servers) == [] ==> r.None?
    ensures Up(servers) != [] && clientIp == "" ==> r == Some(Up(servers)[0])
    ensures Up(servers) != [] && clientIp != "" ==> (r.None? <==> TotalWeight(Up(servers)) == 0)
    ensures Up(servers) != [] && clientIp != "" && Weighed(servers) && TotalWeight(Up(servers)) != 0 ==>
      && !fellThrough
      && |Expand(Up(servers))| == TotalWeight(Up(servers))
      && r == Some(Expand(Up(servers))[h % TotalWeight(Up(servers))])
  {
    hide Expand, TotalWeight, Where, FloorMod;
    fellThrough := false;
    var available := Up(servers);
    if available == [] { return None, false; }
    if clientIp == "" { return Some(available[0]), false; }
    var total := TotalWeight(available);
    if total == 0 { return None, false; }
    var idx := FloorMod(h, total);
    ghost var start := idx;
    ghost var sane := Weighed(available);
    if sane { ExpandLength(available); HashInRange(h, total); ExpandOfNothing(); }
    assert available[..0] == [];
    var i := 0;
    while i < |available|
      invariant 0 <= i <= |available|
      invariant sane ==> 0 <= idx && idx + |Expand(available[..i])| == start < |Expand(available)|
    {
      if sane { ExpandPrefix(available, i); }
      if idx < available[i].weight { return Some(available[i]), false; }
      idx := idx - available[i].weight;
      i := i + 1;
    }
    assert available[..i] == available;
    return Some(available[|available| - 1]), true;
  }

  lemma {:induction false} HashInRange(h: nat, total: int)
    requires total != 0
    ensures total > 0 ==> FloorMod(h, total) == h % total && 0 <= h % total < total
  {
  }

  // ---- Least connections ------------------------------------------------------------------------------

  type Address = (string, int)
  type Loads = map<Address, nat>

  function Load(conns: Loads, s: Server): nat { if (s.host, s.port) in conns then conns[(s.host, s.port)] else 0 }

  function Divisor(s: Server): nat { if s.weight > 1 then s.weight else 1 }

  /** The quotient of load and weight of `a` is at most that of `b` (compared without rounding). */
  predicate AtMost(conns: Loads, a: Server, b: Server) { Load(conns, a) * Divisor(b) <= Load(conns, b) * Divisor(a) }

  ghost predicate IsLeast(conns: Loads, available: seq<Server>, s: Server) {
    s in available && forall t :: t in available ==> AtMost(conns, s, t)
  }

  /** The first of the servers with the least quotient, as `min` returns it. */
  ghost predicate FirstLeast(conns: Loads, available: seq<Server>, i: int) {
    && 0 <= i < |available| && IsLeast(conns, available, available[i])
    && forall k :: 0 <= k < i ==> !AtMost(conns, available[k], available[i])
  }

  function Incremented(conns: Loads, s: Server): (r: Loads) { conns[(s.host, s.port) := Load(conns, s) + 1] }

  function Decremented(conns: Loads, s: Server): (r: Loads) {
    conns[(s.host, s.port) := if Load(conns, s) == 0 then 0 else Load(conns, s) - 1]
  }

  class LeastConnBalancer {
    var activeConns: Loads

    constructor ()
      ensures activeConns == map[]
    {
      activeConns := map[];
    }

    method Select(servers: seq<Server>) returns (r: Option<Server>)
      ensures r.None? <==> Up(servers) == []
      ensures r.Some? ==> IsLeast(activeConns, Up(servers), r.value)
      ensures r.Some? ==> exists i :: FirstLeast(activeConns, Up(servers), i) && r.value == Up(servers)[i]
    {
      hide Where, AtMost;
      var available := Up(servers);
      if available == [] { return None; }
      var best, at, i := available[0], 0, 1;
      AtMostReflexive(activeConns, best);
      while i < |available|
        invariant 0 <= at < i <= |available| && best == available[at]
        invariant forall k :: 0 <= k < i ==> AtMost(activeConns, best, available[k])
        invariant forall k :: 0 <= k < at ==> !AtMost(activeConns, available[k], best)
      {
        if !AtMost(activeConns, best, available[i]) {
          OvertakesAll(activeConns, available, at, i);
          best, at := available[i], i;
        }
        i := i + 1;
      }
      assert FirstLeast(activeConns, available, at);
      return Some(best);
    }

    method Increment(s: Server)
      modifies this
      ensures activeConns == Incremented(old(activeConns), s)
    {
      activeConns := activeConns[(s.host, s.port) := Load(activeConns, s) + 1];
    }

    method Decrement(s: Server)
      modifies this
      ensures activeConns == Decremented(old(activeConns), s)
    {
      var key := (s.host, s.port);
      var count: int := if key in activeConns then activeConns[key] else 1;
      var less := count - 1;
      activeConns := activeConns[key := if less < 0 then 0 else less];
    }
  }

  /** A server below the best so far is below every server the best was at most equal to. */
  lemma {:induction false} OvertakesAll(conns: Loads, available: seq<Server>, at: nat, i: nat)
    requires at < i < |available| && !AtMost(conns, available[at], available[i])
    requires forall k :: 0 <= k < i ==> AtMost(conns, available[at], available[k])
    ensures forall k :: 0 <= k <= i ==> AtMost(conns, available[i], available[k])
    ensures forall k :: 0 <= k < i ==> !AtMost(conns, available[k], available[i])
  {
    AtMostTotal(conns, available[at], available[i]);
    AtMostReflexive(conns, available[i]);
    hide AtMost;
    forall k | 0 <= k < i
      ensures AtMost(conns, available[i], available[k]) && !AtMost(conns, available[k], available[i])
    {
      AtMostTransitive(conns, available[i], available[at], available[k]);
      if AtMost(conns, available[k], available[i]) {
        AtMostTransitive(conns, available[at], available[k], available[i]);
      }
    }
  }

  lemma {:induction false} AtMostTotal(conns: Loads, a: Server, b: Server)
    ensures AtMost(conns, a, b) || AtMost(conns, b, a)
  {
  }

  lemma {:induction false} AtMostReflexive(conns: Loads, a: Server)
    ensures AtMost(conns, a, a)
  {
  }

  lemma {:induction false} AtMostTransitive(conns: Loads, a: Server, b: Server, c: Server)
    requires AtMost(conns, a, b) && AtMost(conns, b, c)
    ensures AtMost(conns, a, c)
  {
    CrossTransitive(Load(conns, a), Divisor(a), Load(conns, b), Divisor(b), Load(conns, c), Divisor(c));
  }

  lemma {:induction false} CrossTransitive(x: nat, p: nat, y: nat, q: nat, z: nat, r: nat)
    requires p > 0 && q > 0 && r > 0 && x * q <= y * p && y * r <= z * q
    ensures x * r <= z * p
  {
    assert (x * r) * q == (x * q) * r <= (y * p) * r == (y * r) * p <= (z * q) * p == (z * p) * q;
    Cancel(x * r, z * p, q);
  }

  /** No two different servers of the list share an address. */
  ghost predicate Distinct(servers: seq<Server>) {
    forall a, b :: a in servers && b in servers && (a.host, a.port) == (b.host, b.port) ==> a == b
  }

  /** The loads after selecting and incrementing the servers in `picks`, in turn. */
  function LoadsAfter(picks: seq<Server>): (r: Loads)
  {
    if picks == [] then map[] else Incremented(LoadsAfter(picks[..|picks| - 1]), picks[|picks| - 1])
  }

  /** How often a server's address was picked. */
  function TimesPicked(picks: seq<Server>, s: Server): (n: nat)
  {
    if picks == [] then 0
    else
      var p := picks[|picks| - 1];
      TimesPicked(picks[..|picks| - 1], s) + if p.host == s.host && p.port == s.port then 1 else 0
  }

  /** A server's load is how often it was picked. */
  lemma {:induction false} LoadIsTimesPicked(picks: seq<Server>, s: Server)
    ensures Load(LoadsAfter(picks), s) == TimesPicked(picks, s)
  {
    if picks != [] { LoadIsTimesPicked(picks[..|picks| - 1], s); }
  }

  /** Releasing a connection undoes taking it, and touches no other address. */
  lemma {:induction false} DecrementUndoes(conns: Loads, s: Server, t: Server)
    ensures Load(Decremented(Incremented(conns, s), s), t) == Load(conns, t)
    ensures Load(conns, s) == 0 ==> Load(Decremented(conns, s), s) == 0
  {
  }

  /** Each pick was a server of least quotient at its time, ties broken in any way. */
  ghost predicate LegalPicks(servers: seq<Server>, picks: seq<Server>) {
    forall i :: 0 <= i < |picks| ==> IsLeast(LoadsAfter(picks[..i]), servers, picks[i])
  }

  /** Taking one connection off a loaded server never leaves it above any other: (c - 1) / w <= c' / w'. */
  ghost predicate Balanced(conns: Loads, servers: seq<Server>) {
    forall a, b :: a in servers && b in servers && Load(conns, a) > 0 ==>
      (Load(conns, a) - 1) * Divisor(b) <= Load(conns, b) * Divisor(a)
  }

  lemma {:induction false} IncrementKeepsBalance(conns: Loads, servers: seq<Server>, s: Server)
    requires Distinct(servers) && Balanced(conns, servers) && IsLeast(conns, servers, s)
    ensures Balanced(Incremented(conns, s), servers)
  {
    var next := Incremented(conns, s);
    forall a, b | a in servers && b in servers && Load(next, a) > 0
      ensures (Load(next, a) - 1) * Divisor(b) <= Load(next, b) * Divisor(a)
    {
      assert Load(next, a) == Load(conns, a) + if a == s then 1 else 0;
      assert Load(next, b) == Load(conns, b) + if b == s then 1 else 0;
      Widen(Load(conns, b), Load(next, b), Divisor(a));
      if a == s { assert AtMost(conns, a, b); }
    }
  }

  lemma {:induction false} Widen(x: nat, y: nat, p: nat)
    requires x <= y
    ensures x * p <= y * p
  {
  }

  /** For every run of select-then-increment over a fixed list of distinct servers, whatever the ties, the loads stay
      balanced by weight. */
  lemma {:induction false} LeastConnStaysBalanced(servers: seq<Server>, picks: seq<Server>)
    requires Distinct(servers) && LegalPicks(servers, picks)
    ensures Balanced(LoadsAfter(picks), servers)
  {
    hide IsLeast, Incremented, Distinct;
    if picks == [] {
      assert forall a: Server :: Load(map[], a) == 0;
    } else {
      hide Balanced;
      var prior := picks[..|picks| - 1];
      assert forall i :: 0 <= i < |prior| ==> prior[i] == picks[i] && prior[..i] == picks[..i];
      LeastConnStaysBalanced(servers, prior);
      IncrementKeepsBalance(LoadsAfter(prior), servers, picks[|picks| - 1]);
    }
  }

  /** So servers of equal weight never differ by more than one connection. */
  lemma {:induction false} EqualWeightsWithinOne(servers: seq<Server>, picks: seq<Server>, a: Server, b: Server)
    requires Distinct(servers) && LegalPicks(servers, picks)
    requires a in servers && b in servers && Divisor(a) == Divisor(b)
    ensures Load(LoadsAfter(picks), a) <= Load(LoadsAfter(picks), b) + 1
  {
    LeastConnStaysBalanced(servers, picks);
    hide LoadsAfter, Load, Divisor, LegalPicks, Distinct;
    var conns := LoadsAfter(picks);
    if Load(conns, a) > 0 {
      assert Divisor(a) > 0 by { DivisorPositive(a); }
      Cancel(Load(conns, a) - 1, Load(conns, b), Divisor(a));
    }
  }

  /** Loads are divided by the weight, at least one. */
  lemma {:induction false} DivisorExactly(s: Server)
    ensures s.weight >= 1 ==> Divisor(s) == s.weight
    ensures s.weight < 1 ==> Divisor(s) == 1
  {
  }

  lemma {:induction false} DivisorPositive(s: Server)
    ensures Divisor(s) > 0
  {
  }

  lemma {:induction false} Cancel(x: nat, y: nat, p: nat)
    requires p > 0 && x * p <= y * p
    ensures x <= y
  {
  }
}
