/** Connection states and the status counters they drive (proxy/connection.py, proxy/status.py). */
module Status {
  import opened Bytes

  datatype ConnState = ReadRequest | MatchRoute | ConnectUpstream | Forward | Respond | ClosedState

  datatype Category = Reading | Writing | Waiting

  /** `_STATE_CATEGORY`; None for CLOSED and for a connection that has no state yet. */
  function CategoryOf(s: Option<ConnState>): (c: Option<Category>)
  {
    match s
    case None => None
    case Some(ReadRequest) => Some(Reading)
    case Some(Respond) => Some(Writing)
    case Some(ClosedState) => None
    case Some(_) => Some(Waiting)
  }

  datatype Counters = Counters(accepted: int, active: int, reading: int, writing: int, waiting: int) {
    function Of(c: Category): int { match c case Reading => reading case Writing => writing case Waiting => waiting }

    function With(c: Category, n: int): Counters {
      match c
      case Reading => this.(reading := n)
      case Writing => this.(writing := n)
      case Waiting => this.(waiting := n)
    }
  }

  function AtLeastZero(n: int): int { if n < 0 then 0 else n }

  function Left(k: Counters, c: Option<Category>): Counters {
    if c.None? then k else k.With(c.value, AtLeastZero(k.Of(c.value) - 1))
  }

  function Entered(k: Counters, c: Option<Category>): Counters {
    if c.None? then k else k.With(c.value, k.Of(c.value) + 1)
  }

  function Moved(k: Counters, from: Option<Category>, to: Option<Category>): (r: Counters) {
    Entered(Left(k, from), to)
  }

  class StatusCollector {
    var accepted: int
    var active: int
    var reading: int
    var writing: int
    var waiting: int

    constructor ()
      ensures View() == Counters(0, 0, 0, 0, 0)
    {
      accepted, active, reading, writing, waiting := 0, 0, 0, 0, 0;
    }

    function View(): Counters
      reads this
    {
      Counters(accepted, active, reading, writing, waiting)
    }

    method IncrementAccepted()
      modifies this
      ensures View() == old(View()).(accepted := old(accepted) + 1, active := old(active) + 1)
    {
      accepted := accepted + 1;
      active := active + 1;
    }

    method DecrementActive()
      modifies this
      ensures View() == old(View()).(active := AtLeastZero(old(active) - 1))
    {
      active := if active - 1 < 0 then 0 else active - 1;
    }

    method EnterState(c: Option<Category>)
      modifies this
      ensures View() == Entered(old(View()), c)
    {
      if c == Some(Reading) { reading := reading + 1; }
      else if c == Some(Writing) { writing := writing + 1; }
      else if c == Some(Waiting) { waiting := waiting + 1; }
    }

    method LeaveState(c: Option<Category>)
      modifies this
      ensures View() == Left(old(View()), c)
    {
      if c == Some(Reading) { reading := AtLeastZero(reading - 1); }
      else if c == Some(Writing) { writing := AtLeastZero(writing - 1); }
      else if c == Some(Waiting) { waiting := AtLeastZero(waiting - 1); }
    }

    method TransitionState(from: Option<Category>, to: Option<Category>)
      modifies this
      ensures View() == Moved(old(View()), from, to)
    {
      LeaveState(from);
      EnterState(to);
    }
  }

  /** Leaving a category takes one off its counter, down to zero and no further, and touches no other. */
  lemma {:induction false} LeavesExactly(k: Counters, c: Category, d: Category)
    ensures Left(k, Some(c)).Of(d) == if c != d then k.Of(d) else if k.Of(c) > 0 then k.Of(c) - 1 else 0
    ensures Entered(k, Some(c)).Of(d) == if c != d then k.Of(d) else k.Of(c) + 1
    ensures Left(k, None) == k == Entered(k, None)
  {
  }

  /** `_set_state`: the collector is told only when the category changes. */
  function Set(k: Counters, from: Option<ConnState>, to: ConnState): (r: Counters)
  {
    if CategoryOf(from) != CategoryOf(Some(to)) then Moved(k, CategoryOf(from), CategoryOf(Some(to))) else k
  }

  class Connection {
    const collector: StatusCollector
    var state: Option<ConnState>
    var closed: bool

    constructor (collector: StatusCollector)
      ensures this.collector == collector && state.None? && !closed
    {
      this.collector := collector;
      state, closed := None, false;
    }

    method SetState(s: ConnState)
      modifies this`state, collector
      ensures state == Some(s) && collector.View() == Set(old(collector.View()), old(state), s)
    {
      var before, after := CategoryOf(state), CategoryOf(Some(s));
      if before != after { collector.TransitionState(before, after); }
      state := Some(s);
    }

    /** `handle` up to its first await. */
    method Begin()
      modifies this`state, collector
      ensures state == Some(ReadRequest)
      ensures collector.View() == Begun(old(collector.View()), old(state))
    {
      collector.IncrementAccepted();
      SetState(ReadRequest);
    }

    /** `_close` up to the closing of the writer. */
    method Close()
      modifies this, collector
      ensures closed && state == Some(ClosedState)
      ensures collector.View() == Ended(old(collector.View()), old(state))
    {
      closed := true;
      SetState(ClosedState);
      collector.DecrementActive();
    }
  }

  function Begun(k: Counters, s: Option<ConnState>): Counters {
    Set(k.(accepted := k.accepted + 1, active := k.active + 1), s, ReadRequest)
  }

  function Ended(k: Counters, s: Option<ConnState>): Counters {
    var t := Set(k, s, ClosedState);
    t.(active := AtLeastZero(t.active - 1))
  }

  // ---- Any number of connections, interleaved at their await points -------------------------------

  type Id = nat

  datatype World = World(live: map<Id, ConnState>, counters: Counters)

  datatype Event = BeginE(id: Id) | SetE(id: Id, state: ConnState) | EndE(id: Id)

  /** An event of a connection that is not in the right phase changes nothing. */
  function Step(w: World, e: Event): (t: World)
  {
    match e
    case BeginE(c) => if c in w.live then w else World(w.live[c := ReadRequest], Begun(w.counters, None))
    case SetE(c, s) =>
      if c !in w.live || s.ClosedState? then w else World(w.live[c := s], Set(w.counters, Some(w.live[c]), s))
    case EndE(c) => if c !in w.live then w else World(w.live - {c}, Ended(w.counters, Some(w.live[c])))
  }

  const START := World(map[], Counters(0, 0, 0, 0, 0))

  function Exec(events: seq<Event>): (w: World)
  {
    if events == [] then START else Step(Exec(events[..|events| - 1]), events[|events| - 1])
  }

  function InCategory(live: map<Id, ConnState>, c: Category): (r: set<Id>)
  {
    set i | i in live && CategoryOf(Some(live[i])) == Some(c)
  }

  function Count(live: map<Id, ConnState>, c: Category): (n: nat) { |InCategory(live, c)| }

  ghost predicate Exact(w: World) {
    && (forall i :: i in w.live ==> !w.live[i].ClosedState?)
    && (forall c: Category :: w.counters.Of(c) == Count(w.live, c))
    && w.counters.active == |w.live|
  }

  function Unit(b: bool): int { if b then 1 else 0 }

  predicate Is(s: Option<ConnState>, c: Category) { CategoryOf(s) == Some(c) }

  function Lookup(live: map<Id, ConnState>, i: Id): Option<ConnState> { if i in live then Some(live[i]) else None }

  lemma {:induction false} Resize(s: set<Id>, i: Id, keep: bool)
    ensures |if keep then s - {i} + {i} else s - {i}| == |s| - Unit(i in s) + Unit(keep)
  {
  }

  lemma {:induction false} MembersAfterUpdate(live: map<Id, ConnState>, i: Id, s: ConnState, c: Category)
    ensures var was := InCategory(live, c);
      && InCategory(live[i := s], c) == (if Is(Some(s), c) then was - {i} + {i} else was - {i})
      && (i in was <==> Is(Lookup(live, i), c))
  {
    NoCategory();
    hide CategoryOf;
  }

  lemma {:induction false} CountAfterUpdate(live: map<Id, ConnState>, i: Id, s: ConnState, c: Category)
    ensures Count(live[i := s], c) == Count(live, c) - Unit(Is(Lookup(live, i), c)) + Unit(Is(Some(s), c))
    ensures |live[i := s]| == |live| + Unit(i !in live)
  {
    hide InCategory, Is, Lookup, Unit;
    MembersAfterUpdate(live, i, s, c);
    Resize(InCategory(live, c), i, Is(Some(s), c));
    KeysAfterUpdate(live, i, s);
  }

  lemma {:induction false} KeysAfterUpdate(live: map<Id, ConnState>, i: Id, s: ConnState)
    ensures |live[i := s]| == |live| + Unit(i !in live)
  {
    assert live[i := s].Keys == live.Keys + {i};
  }

  lemma {:induction false} CountAfterRemoval(live: map<Id, ConnState>, i: Id, c: Category)
    requires i in live
    ensures Count(live - {i}, c) == Count(live, c) - Unit(Is(Some(live[i]), c))
    ensures |live - {i}| == |live| - 1
  {
    hide CategoryOf;
    assert InCategory(live - {i}, c) == InCategory(live, c) - {i};
    assert (live - {i}).Keys == live.Keys - {i};
  }

  /** A live connection is counted in its own category, so leaving that category never meets the zero floor. */
  lemma {:induction false} HoldsOwn(w: World, i: Id)
    requires Exact(w) && i in w.live
    ensures CategoryOf(Some(w.live[i])).Some?
    ensures w.counters.Of(CategoryOf(Some(w.live[i])).value) >= 1 && w.counters.active >= 1
  {
    var c := CategoryOf(Some(w.live[i])).value;
    assert i in InCategory(w.live, c);
    assert i in w.live.Keys;
  }

  /** What a transition does to each counter when the one it leaves is not zero. */
  lemma {:induction false} SetCounts(k: Counters, from: Option<ConnState>, to: ConnState, c: Category)
    requires CategoryOf(from).Some? ==> k.Of(CategoryOf(from).value) >= 1
    ensures Set(k, from, to).Of(c) == k.Of(c) - Unit(Is(from, c)) + Unit(Is(Some(to), c))
    ensures Set(k, from, to).active == k.active
  {
  }

  lemma {:induction false} BeginExact(w: World, i: Id)
    requires Exact(w) && i !in w.live
    ensures Exact(Step(w, BeginE(i)))
  {
    hide Count, CategoryOf, Set;
    var k, t := w.counters, Step(w, BeginE(i));
    NoCategory();
    forall c: Category ensures t.counters.Of(c) == Count(t.live, c) && t.counters.active == |t.live| {
      CountAfterUpdate(w.live, i, ReadRequest, c);
      SetCounts(k.(accepted := k.accepted + 1, active := k.active + 1), None, ReadRequest, c);
    }
    assert t.counters.Of(Reading) == Count(t.live, Reading);
  }

  lemma {:induction false} NoCategory()
    ensures CategoryOf(None) == None && CategoryOf(Some(ClosedState)) == None
  {
  }

  lemma {:induction false} SetExact(w: World, i: Id, s: ConnState)
    requires Exact(w) && i in w.live && !s.ClosedState?
    ensures Exact(Step(w, SetE(i, s)))
  {
    hide Count, CategoryOf, Set;
    var t := Step(w, SetE(i, s));
    HoldsOwn(w, i);
    forall c: Category ensures t.counters.Of(c) == Count(t.live, c) && t.counters.active == |t.live| {
      CountAfterUpdate(w.live, i, s, c);
      SetCounts(w.counters, Some(w.live[i]), s, c);
    }
    assert t.counters.Of(Reading) == Count(t.live, Reading);
  }

  lemma {:induction false} EndExact(w: World, i: Id)
    requires Exact(w) && i in w.live
    ensures Exact(Step(w, EndE(i)))
  {
    hide Count, CategoryOf, Set;
    var t := Step(w, EndE(i));
    HoldsOwn(w, i);
    NoCategory();
    forall c: Category ensures t.counters.Of(c) == Count(t.live, c) && t.counters.active == |t.live| {
      CountAfterRemoval(w.live, i, c);
      SetCounts(w.counters, Some(w.live[i]), ClosedState, c);
    }
    assert t.counters.Of(Reading) == Count(t.live, Reading);
  }

  lemma {:induction false} ExactAlways(events: seq<Event>)
    ensures Exact(Exec(events))
  {
    if events == [] {
      forall c: Category ensures Count(map[], c) == 0 { assert InCategory(map[], c) == {}; }
    } else {
      hide Exact, Step;
      var w, e := Exec(events[..|events| - 1]), events[|events| - 1];
      ExactAlways(events[..|events| - 1]);
      ExactStep(w, e);
    }
  }

  lemma {:induction false} ExactStep(w: World, e: Event)
    requires Exact(w)
    ensures Exact(Step(w, e))
  {
    hide Exact, Begun, Ended, Set;
    match e {
      case BeginE(i) => if i !in w.live { BeginExact(w, i); }
      case SetE(i, s) => if i in w.live && !s.ClosedState? { SetExact(w, i, s); }
      case EndE(i) => if i in w.live { EndExact(w, i); }
    }
  }

  lemma {:induction false} CategoriesPartition(live: map<Id, ConnState>)
    requires forall i :: i in live ==> !live[i].ClosedState?
    ensures Count(live, Reading) + Count(live, Writing) + Count(live, Waiting) == |live|
  {
    var r, wr, wa := InCategory(live, Reading), InCategory(live, Writing), InCategory(live, Waiting);
    assert r !! wr && (r + wr) !! wa;
    assert r + wr + wa == live.Keys;
  }

  /** In every interleaving of any number of connections, each counter is the number of live connections in its category
      and the three add up to the active count. */
  lemma {:induction false} CountersAreExact(events: seq<Event>)
    ensures var w := Exec(events);
      && w.counters.reading == |InCategory(w.live, Reading)|
      && w.counters.writing == |InCategory(w.live, Writing)|
      && w.counters.waiting == |InCategory(w.live, Waiting)|
      && w.counters.reading + w.counters.writing + w.counters.waiting == w.counters.active == |w.live|
    ensures var live := Exec(events).live;
      && InCategory(live, Reading) == (set i | i in live && live[i] == ReadRequest)
      && InCategory(live, Writing) == (set i | i in live && live[i] == Respond)
      && InCategory(live, Waiting) == (set i | i in live && live[i] in {MatchRoute, ConnectUpstream, Forward})
  {
    hide Exec;
    ExactAlways(events);
    var w := Exec(events);
    assert w.counters.Of(Reading) == Count(w.live, Reading);
    assert w.counters.Of(Writing) == Count(w.live, Writing);
    assert w.counters.Of(Waiting) == Count(w.live, Waiting);
    CategoriesPartition(w.live);
  }

  /** No counter operation of a run ever takes the `max(0, ...)` floor: dropping the floors changes nothing. */
  lemma {:induction false} FloorsNeverApply(events: seq<Event>, i: Id)
    requires i in Exec(events).live
    ensures var w := Exec(events);
      var c := CategoryOf(Some(w.live[i]));
      && c.Some? && w.counters.Of(c.value) - 1 >= 0 && w.counters.active - 1 >= 0
  {
    hide Exec;
    ExactAlways(events);
    HoldsOwn(Exec(events), i);
  }

  /** The connections a run began, and which of them live in which state, from the events alone. */
  function Begins(events: seq<Event>): (n: nat)
  {
    if events == [] then 0
    else
      var prior, e := events[..|events| - 1], events[|events| - 1];
      Begins(prior) + if e.BeginE? && StateOf(prior, e.id).None? then 1 else 0
  }

  function StateOf(events: seq<Event>, i: Id): (s: Option<ConnState>)
  {
    if events == [] then None
    else
      var s, e := StateOf(events[..|events| - 1], i), events[|events| - 1];
      if e.id != i then s
      else
        match e
        case BeginE(_) => if s.None? then Some(ReadRequest) else s
        case SetE(_, to) => if s.None? || to == ClosedState then s else Some(to)
        case EndE(_) => None
  }

  /** The live connections are in the states the events gave them, and the accepted counter counts those begun. */
  lemma {:induction false} StatesExactly(events: seq<Event>, i: Id)
    ensures Lookup(Exec(events).live, i) == StateOf(events, i)
    ensures Exec(events).counters.accepted == Begins(events)
  {
    if events != [] {
      var prior, e := events[..|events| - 1], events[|events| - 1];
      StatesExactly(prior, i);
      StatesExactly(prior, e.id);
      AcceptedStep(Exec(prior), e);
    }
  }

  lemma {:induction false} AcceptedStep(w: World, e: Event)
    ensures Step(w, e).counters.accepted == w.counters.accepted + Unit(e.BeginE? && e.id !in w.live)
  {
  }
}
