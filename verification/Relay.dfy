/** The server's relay fallback (server/relay.py): one queue per destination, shared by all its sources. */
module Relay {
  import opened Bytes

  const MAX_RELAY_QUEUE := 1024

  type Id = string

  datatype Item = Item(src: Id, raw: bytes)

  datatype RelayState = RelayState(
    queues: map<Id, seq<Item>>,
    paths: set<(Id, Id)>,
    relayed: map<(Id, Id), nat>,
    dropped: nat)

  const EMPTY := RelayState(map[], {}, map[], 0)

  // ---- One operation -------------------------------------------------------

  function WithQueue(queues: map<Id, seq<Item>>, c: Id): (r: map<Id, seq<Item>>)
  {
    if c in queues then queues else queues[c := []]
  }

  function Register(s: RelayState, src: Id, dst: Id): (r: (RelayState, bool))
  {
    (s.(queues := WithQueue(WithQueue(s.queues, dst), src), paths := s.paths + {(src, dst), (dst, src)}),
     (src, dst) !in s.paths)
  }

  function Offer(s: RelayState, src: Id, dst: Id, raw: bytes): (r: (RelayState, bool))
  {
    if dst !in s.queues || (src, dst) !in s.paths then (s, false)
    else if |s.queues[dst]| >= MAX_RELAY_QUEUE then (s.(dropped := s.dropped + 1), false)
    else
      var before := if (src, dst) in s.relayed then s.relayed[(src, dst)] else 0;
      (s.(queues := s.queues[dst := s.queues[dst] + [Item(src, raw)]],
          relayed := s.relayed[(src, dst) := before + |raw|]),
       true)
  }

  function Drain(s: RelayState, dst: Id): (r: (RelayState, seq<Item>))
  {
    if dst !in s.queues then (s, []) else (s.(queues := s.queues[dst := []]), s.queues[dst])
  }

  /** The items of a queue that did not come from `c`, in order. */
  function Without(q: seq<Item>, c: Id): (r: seq<Item>)
    ensures |r| <= |q|
    ensures forall it :: it in r <==> it in q && it.src != c
  {
    if q == [] then []
    else Without(q[..|q| - 1], c) + if q[|q| - 1].src == c then [] else [q[|q| - 1]]
  }

  function OthersQueues(queues: map<Id, seq<Item>>, c: Id): (r: map<Id, seq<Item>>)
  {
    map d | d in queues && d != c :: Without(queues[d], c)
  }

  function Sifted(queues: map<Id, seq<Item>>, c: Id): (r: map<Id, seq<Item>>)
  {
    map d | d in queues :: Without(queues[d], c)
  }

  lemma {:induction false} QueuesWithout(queues: map<Id, seq<Item>>, c: Id)
    ensures Sifted(queues - {c}, c) == OthersQueues(queues, c)
  {
    hide Without;
  }

  function Drop(s: RelayState, c: Id): (r: RelayState)
  {
    RelayState(
      OthersQueues(s.queues, c),
      set p | p in s.paths && p.0 != c && p.1 != c,
      map p | p in s.relayed && p.0 != c && p.1 != c :: s.relayed[p],
      s.dropped)
  }

  // ---- The object ------------------------------------------------------------

  class RelayForwarder {
    var queues: map<Id, seq<Item>>
    var paths: set<(Id, Id)>
    var bytesRelayed: map<(Id, Id), nat>
    var droppedFrames: nat
    const b64encode: bytes -> string

    constructor (b64encode: bytes -> string)
      ensures View() == EMPTY
    {
      this.b64encode := b64encode;
      queues, paths, bytesRelayed, droppedFrames := map[], {}, map[], 0;
    }

    function View(): RelayState
      reads this
    {
      RelayState(queues, paths, bytesRelayed, droppedFrames)
    }

    method RegisterRelayPath(src: Id, dst: Id) returns (isNew: bool)
      modifies this`queues, this`paths
      ensures (View(), isNew) == Register(old(View()), src, dst)
    {
      if dst !in queues { queues := queues[dst := []]; }
      if src !in queues { queues := queues[src := []]; }
      isNew := (src, dst) !in paths;
      paths := paths + {(src, dst)};
      paths := paths + {(dst, src)};
      assert paths == old(paths) + {(src, dst), (dst, src)};
    }

    method RelayFrame(src: Id, dst: Id, raw: bytes) returns (accepted: bool)
      modifies this`queues, this`bytesRelayed, this`droppedFrames
      ensures (View(), accepted) == Offer(old(View()), src, dst, raw)
    {
      if dst !in queues || (src, dst) !in paths { return false; }
      if |queues[dst]| >= MAX_RELAY_QUEUE {
        droppedFrames := droppedFrames + 1;
        return false;
      }
      queues := queues[dst := queues[dst] + [Item(src, raw)]];
      var key := (src, dst);
      var before := if key in bytesRelayed then bytesRelayed[key] else 0;
      bytesRelayed := bytesRelayed[key := before + |raw|];
      return true;
    }

    method PendingFrames(dst: Id) returns (out: seq<(Id, string)>)
      modifies this`queues
      ensures View() == Drain(old(View()), dst).0
      ensures var items := Drain(old(View()), dst).1;
        && |out| == |items|
        && forall i :: 0 <= i < |items| ==> out[i] == (items[i].src, b64encode(items[i].raw))
    {
      out := [];
      if dst !in queues { return; }
      var items := queues[dst];
      var n := 0;
      while queues[dst] != []
        invariant dst in queues && 0 <= n <= |items|
        invariant queues == old(queues)[dst := items[n..]]
        invariant |out| == n
        invariant forall i :: 0 <= i < n ==> out[i] == (items[i].src, b64encode(items[i].raw))
        decreases |items| - n
      {
        var head := queues[dst][0];
        queues := queues[dst := queues[dst][1..]];
        out := out + [(head.src, b64encode(head.raw))];
        n := n + 1;
      }
    }

    method DropClient(c: Id)
      modifies this
      ensures View() == Drop(old(View()), c)
    {
      hide Without, OthersQueues;
      QueuesWithout(queues, c);
      queues := queues - {c};
      PurgeFrom(c);
      paths := set p | p in paths && p.0 != c && p.1 != c;
      bytesRelayed := map k | k in bytesRelayed && k.0 != c && k.1 != c :: bytesRelayed[k];
    }

    /** The loop of `drop_client` over the remaining queues. */
    method PurgeFrom(c: Id)
      modifies this`queues
      ensures queues == Sifted(old(queues), c)
    {
      hide Without;
      var todo := queues.Keys;
      while todo != {}
        invariant todo <= queues.Keys && queues.Keys == old(queues).Keys
        invariant forall d :: d in queues ==>
          queues[d] == if d in todo then old(queues)[d] else Without(old(queues)[d], c)
        decreases todo
      {
        var d :| d in todo;
        queues := queues[d := Without(queues[d], c)];
        todo := todo - {d};
      }
    }
  }

  // ---- Runs --------------------------------------------------------------------

  datatype Event =
    | RegisterPath(src: Id, dst: Id)
    | OfferFrame(src: Id, dst: Id, raw: bytes)
    | DrainQueue(dst: Id)
    | DropPeer(client: Id)

  /** What the caller sees: nothing, an accept/reject answer, or the drained frames. */
  datatype Output = Quiet | Answer(accepted: bool) | Drained(items: seq<Item>)

  function Step(s: RelayState, e: Event): (r: (RelayState, Output))
  {
    match e
    case RegisterPath(a, b) => (Register(s, a, b).0, Quiet)
    case OfferFrame(a, b, raw) => var (t, ok) := Offer(s, a, b, raw); (t, Answer(ok))
    case DrainQueue(b) => var (t, items) := Drain(s, b); (t, Drained(items))
    case DropPeer(c) => (Drop(s, c), Quiet)
  }

  function Exec(events: seq<Event>): (s: RelayState)
  {
    if events == [] then EMPTY else Step(Exec(events[..|events| - 1]), events[|events| - 1]).0
  }

  // ---- The reference: one independent channel per ordered pair -------------------

  datatype Settled = Settled(raw: bytes, delivered: bool)

  /** The life of the frames from one source to one destination: what was accepted, what became of the
      settled ones, what still waits, whether the path is open and what was accepted since it last closed. */
  datatype Channel = Channel(open: bool, accepted: seq<bytes>, settled: seq<Settled>, pending: seq<bytes>, counted: nat)

  const FRESH_CHANNEL := Channel(false, [], [], [], 0)

  function Settle(frames: seq<bytes>, delivered: bool): (r: seq<Settled>)
  {
    seq(|frames|, i requires 0 <= i < |frames| => Settled(frames[i], delivered))
  }

  /** A channel looks only at the events that name its pair and at the accept/reject answers. */
  function ChannelStep(ch: Channel, src: Id, dst: Id, e: Event, out: Output): (r: Channel)
  {
    match e
    case RegisterPath(a, b) =>
      if (a, b) == (src, dst) || (b, a) == (src, dst) then ch.(open := true) else ch
    case OfferFrame(a, b, raw) =>
      if (a, b) == (src, dst) && out == Answer(true)
      then ch.(accepted := ch.accepted + [raw], pending := ch.pending + [raw], counted := ch.counted + |raw|)
      else ch
    case DrainQueue(b) =>
      if b == dst then ch.(settled := ch.settled + Settle(ch.pending, true), pending := []) else ch
    case DropPeer(c) =>
      if c == src || c == dst
      then ch.(open := false, settled := ch.settled + Settle(ch.pending, false), pending := [], counted := 0)
      else ch
  }

  function ChannelOf(events: seq<Event>, src: Id, dst: Id): (ch: Channel)
  {
    if events == [] then FRESH_CHANNEL
    else
      var prior, e := events[..|events| - 1], events[|events| - 1];
      ChannelStep(ChannelOf(prior, src, dst), src, dst, e, Step(Exec(prior), e).1)
  }

  /** The frames of a queue or delivery that came from `src`, in order. */
  function From(items: seq<Item>, src: Id): (r: seq<bytes>)
  {
    if items == [] then []
    else From(items[..|items| - 1], src) + if items[|items| - 1].src == src then [items[|items| - 1].raw] else []
  }

  /** Everything the run's drains of `dst` handed over from `src`, in order of delivery. */
  function DeliveryLog(events: seq<Event>, src: Id, dst: Id): (r: seq<bytes>)
  {
    if events == [] then []
    else
      var prior, e := events[..|events| - 1], events[|events| - 1];
      var out := Step(Exec(prior), e).1;
      DeliveryLog(prior, src, dst) + if e == DrainQueue(dst) then From(out.items, src) else []
  }

  function Raws(s: seq<Settled>): (r: seq<bytes>)
  {
    seq(|s|, i requires 0 <= i < |s| => s[i].raw)
  }

  function DeliveredOf(s: seq<Settled>): (r: seq<bytes>)
  {
    if s == [] then []
    else DeliveredOf(s[..|s| - 1]) + if s[|s| - 1].delivered then [s[|s| - 1].raw] else []
  }

  lemma {:induction false} FromNothing(src: Id)
    ensures From([], src) == []
  {
  }

  lemma {:induction false} FromAppend(a: seq<Item>, it: Item, src: Id)
    ensures From(a + [it], src) == From(a, src) + if it.src == src then [it.raw] else []
  {
    assert (a + [it])[..|a|] == a;
  }

  lemma {:induction false} FromWithout(q: seq<Item>, c: Id, src: Id)
    ensures From(Without(q, c), src) == if c == src then [] else From(q, src)
  {
    if q != [] {
      var front, last := q[..|q| - 1], q[|q| - 1];
      FromWithout(front, c, src);
      if last.src != c { FromAppend(Without(front, c), last, src); }
      else { assert Without(q, c) == Without(front, c); }
    }
  }

  lemma {:induction false} DeliveredOfAppend(s: seq<Settled>, x: Settled)
    ensures DeliveredOf(s + [x]) == DeliveredOf(s) + if x.delivered then [x.raw] else []
  {
    assert (s + [x])[..|s|] == s;
  }

  lemma {:induction false} DeliveredOfSettle(s: seq<Settled>, frames: seq<bytes>, delivered: bool)
    ensures DeliveredOf(s + Settle(frames, delivered)) == DeliveredOf(s) + if delivered then frames else []
    decreases |frames|
  {
    hide DeliveredOf;
    if frames == [] {
      assert s + Settle(frames, delivered) == s;
    } else {
      var front, last := frames[..|frames| - 1], Settled(frames[|frames| - 1], delivered);
      DeliveredOfSettle(s, front, delivered);
      DeliveredOfAppend(s + Settle(front, delivered), last);
      assert s + Settle(frames, delivered) == s + Settle(front, delivered) + [last];
      assert frames == front + [last.raw];
    }
  }

  // ---- What every run keeps ------------------------------------------------------

  ghost predicate Valid(s: RelayState) {
    && (forall a, b :: (a, b) in s.paths ==> (b, a) in s.paths && a in s.queues && b in s.queues)
    && (forall d :: d in s.queues ==> |s.queues[d]| <= MAX_RELAY_QUEUE)
    && (forall d, it :: d in s.queues && it in s.queues[d] ==> (it.src, d) in s.paths)
    && (forall a, b :: (a, b) in s.relayed ==> (a, b) in s.paths)
  }

  lemma {:induction false} ValidStep(s: RelayState, e: Event)
    requires Valid(s)
    ensures Valid(Step(s, e).0)
  {
  }

  /** Paths stay symmetric, queued frames have a live path and no queue exceeds its bound, in every run. */
  lemma {:induction false} ValidAlways(events: seq<Event>)
    ensures Valid(Exec(events))
  {
    if events != [] {
      ValidAlways(events[..|events| - 1]);
      ValidStep(Exec(events[..|events| - 1]), events[|events| - 1]);
    }
  }

  function QueueOf(s: RelayState, d: Id): (q: seq<Item>)
  {
    if d in s.queues then s.queues[d] else []
  }

  function CountOf(s: RelayState, src: Id, dst: Id): (n: nat)
  {
    if (src, dst) in s.relayed then s.relayed[(src, dst)] else 0
  }

  ghost predicate Refines(s: RelayState, ch: Channel, src: Id, dst: Id) {
    && (ch.open <==> (src, dst) in s.paths)
    && From(QueueOf(s, dst), src) == ch.pending
    && CountOf(s, src, dst) == ch.counted
  }

  lemma {:induction false} RefinesStep(s: RelayState, ch: Channel, src: Id, dst: Id, e: Event)
    requires Valid(s) && Refines(s, ch, src, dst)
    ensures var (t, out) := Step(s, e);
      && Refines(t, ChannelStep(ch, src, dst, e, out), src, dst)
      && (e == DrainQueue(dst) ==> From(out.items, src) == ch.pending)
  {
    hide From, Without;
    match e {
      case RegisterPath(a, b) => hide Offer, Drain, Drop;
      case OfferFrame(a, b, raw) => OfferRefines(s, ch, src, dst, a, b, raw);
      case DrainQueue(b) =>
        hide Offer, Register, Drop;
        FromNothing(src);
      case DropPeer(c) => DropRefines(s, ch, src, dst, c);
    }
  }

  lemma {:induction false} OfferRefines(s: RelayState, ch: Channel, src: Id, dst: Id, a: Id, b: Id, raw: bytes)
    requires Valid(s) && Refines(s, ch, src, dst)
    ensures var (t, out) := Step(s, OfferFrame(a, b, raw));
      Refines(t, ChannelStep(ch, src, dst, OfferFrame(a, b, raw), out), src, dst)
  {
    hide From, Without, Valid;
    if dst in s.queues { FromAppend(s.queues[dst], Item(a, raw), src); }
  }

  lemma {:induction false} DropRefines(s: RelayState, ch: Channel, src: Id, dst: Id, c: Id)
    requires Valid(s) && Refines(s, ch, src, dst)
    ensures var (t, out) := Step(s, DropPeer(c));
      Refines(t, ChannelStep(ch, src, dst, DropPeer(c), out), src, dst)
  {
    hide From, Without, Valid;
    FromNothing(src);
    if dst in s.queues { FromWithout(s.queues[dst], c, src); }
  }

  /** The shared queues behave as one independent first-in-first-out channel per ordered pair: the pair's
      frames in the queue are exactly the channel's pending ones, whatever other pairs do. */
  lemma {:induction false} RefinesChannel(events: seq<Event>, src: Id, dst: Id)
    ensures Refines(Exec(events), ChannelOf(events, src, dst), src, dst)
  {
    if events != [] {
      var prior, e := events[..|events| - 1], events[|events| - 1];
      RefinesChannel(prior, src, dst);
      ValidAlways(prior);
      RefinesStep(Exec(prior), ChannelOf(prior, src, dst), src, dst, e);
    }
  }

  lemma {:induction false} ChannelConserves(ch: Channel, src: Id, dst: Id, e: Event, out: Output)
    requires ch.accepted == Raws(ch.settled) + ch.pending
    ensures var r := ChannelStep(ch, src, dst, e, out);
      && r.accepted == Raws(r.settled) + r.pending
      && DeliveredOf(r.settled) == DeliveredOf(ch.settled) + if e == DrainQueue(dst) then ch.pending else []
  {
    hide DeliveredOf;
    DeliveredOfSettle(ch.settled, ch.pending, true);
    DeliveredOfSettle(ch.settled, ch.pending, false);
    assert Raws(ch.settled + Settle(ch.pending, true)) == Raws(ch.settled) + ch.pending;
    assert Raws(ch.settled + Settle(ch.pending, false)) == Raws(ch.settled) + ch.pending;
  }

  lemma {:induction false} LogMatchesChannel(events: seq<Event>, src: Id, dst: Id)
    ensures var ch := ChannelOf(events, src, dst);
      && ch.accepted == Raws(ch.settled) + ch.pending
      && DeliveryLog(events, src, dst) == DeliveredOf(ch.settled)
  {
    if events != [] {
      hide From, DeliveredOf, ChannelStep, Step, Raws;
      var prior, e := events[..|events| - 1], events[|events| - 1];
      LogMatchesChannel(prior, src, dst);
      RefinesChannel(prior, src, dst);
      ValidAlways(prior);
      var ch := ChannelOf(prior, src, dst);
      RefinesStep(Exec(prior), ch, src, dst, e);
      ChannelConserves(ch, src, dst, e, Step(Exec(prior), e).1);
    }
  }

  /** Every accepted frame is delivered once, purged once or still queued, in the order of acceptance:
      the accepted frames are the settled ones followed by the queued ones, and what the drains handed
      over is exactly the settled frames marked delivered. */
  lemma {:induction false} ExactlyOnceInOrder(events: seq<Event>, src: Id, dst: Id)
    ensures var ch := ChannelOf(events, src, dst);
      && ch.accepted == Raws(ch.settled) + From(QueueOf(Exec(events), dst), src)
      && DeliveryLog(events, src, dst) == DeliveredOf(ch.settled)
  {
    hide From, DeliveredOf, ChannelOf, Exec;
    RefinesChannel(events, src, dst);
    LogMatchesChannel(events, src, dst);
  }

  /** In every reachable state a frame is accepted exactly when its path is open and its destination has room, the
      drop counter rises by one exactly when an open path meets a full queue, and a path is reported new exactly when
      closed. */
  lemma {:induction false} AnswersExactly(events: seq<Event>, src: Id, dst: Id, raw: bytes)
    ensures var s := Exec(events);
      var open := ChannelOf(events, src, dst).open;
      && (Offer(s, src, dst, raw).1 <==> open && |QueueOf(s, dst)| < 1024)
      && Offer(s, src, dst, raw).0.dropped == s.dropped + (if open && |QueueOf(s, dst)| == 1024 then 1 else 0)
      && (Register(s, src, dst).1 <==> !open)
  {
    hide Exec, ChannelOf, From;
    RefinesChannel(events, src, dst);
    ValidAlways(events);
  }

  ghost predicate Mentions(s: RelayState, c: Id) {
    || c in s.queues
    || (exists d, it :: d in s.queues && it in s.queues[d] && it.src == c)
    || (exists p :: p in s.paths && (p.0 == c || p.1 == c))
    || (exists p :: p in s.relayed && (p.0 == c || p.1 == c))
  }

  /** After a drop nothing in the relay mentions the client, and other clients' frames are untouched. */
  lemma {:induction false} DropForgets(s: RelayState, c: Id)
    ensures !Mentions(Drop(s, c), c)
    ensures forall d, src :: d != c && src != c ==> From(QueueOf(Drop(s, c), d), src) == From(QueueOf(s, d), src)
  {
    forall d, src | d != c && src != c
      ensures From(QueueOf(Drop(s, c), d), src) == From(QueueOf(s, d), src)
    {
      if d in s.queues { FromWithout(s.queues[d], c, src); }
    }
  }

  // ---- The order of a queue across its sources ------------------------------------------------

  /** The items that are not of `c`. */
  function NotFrom(q: seq<Item>, c: Id): (r: seq<Item>)
  {
    if q == [] then [] else (if q[0].src == c then [] else [q[0]]) + NotFrom(q[1..], c)
  }

  lemma {:induction false} NotFromAppend(q: seq<Item>, it: Item, c: Id)
    ensures NotFrom(q + [it], c) == NotFrom(q, c) + if it.src == c then [] else [it]
  {
    if q == [] {
      assert q + [it] == [it] && [it][1..] == [];
    } else {
      var first, rest := q[0], q[1..];
      assert q == [first] + rest && q + [it] == [first] + (rest + [it]);
      NotFromFirst(first, rest, c);
      NotFromFirst(first, rest + [it], c);
      hide NotFrom;
      NotFromAppend(rest, it, c);
      Regroup(Unless(first, c), NotFrom(rest, c), Unless(it, c));
    }
  }

  function Unless(it: Item, c: Id): seq<Item> { if it.src == c then [] else [it] }

  lemma {:induction false} NotFromFirst(first: Item, rest: seq<Item>, c: Id)
    ensures NotFrom([first] + rest, c) == Unless(first, c) + NotFrom(rest, c)
  {
    assert ([first] + rest)[1..] == rest;
  }

  lemma {:induction false} Regroup(x: seq<Item>, y: seq<Item>, z: seq<Item>)
    ensures x + (y + z) == x + y + z
  {
  }

  lemma {:induction false} WithoutIsNotFrom(q: seq<Item>, c: Id)
    ensures Without(q, c) == NotFrom(q, c)
  {
    if q != [] {
      hide NotFrom, Without;
      var front, last := q[..|q| - 1], q[|q| - 1];
      assert q == front + [last];
      WithoutIsNotFrom(front, c);
      WithoutLast(front, last, c);
      NotFromAppend(front, last, c);
    }
  }

  lemma {:induction false} WithoutLast(front: seq<Item>, last: Item, c: Id)
    ensures Without(front + [last], c) == Without(front, c) + if last.src == c then [] else [last]
  {
    assert (front + [last])[..|front|] == front;
  }

  /** What waits for `dst` by the events alone: what was accepted for it, in order, less what a drain took and what a
      drop of its source or of itself purged. */
  function WaitingFor(events: seq<Event>, dst: Id): (q: seq<Item>)
  {
    if events == [] then []
    else
      var prior, e := events[..|events| - 1], events[|events| - 1];
      var q := WaitingFor(prior, dst);
      match e
      case OfferFrame(a, b, raw) => if b == dst && Step(Exec(prior), e).1 == Answer(true) then q + [Item(a, raw)] else q
      case DrainQueue(b) => if b == dst then [] else q
      case DropPeer(c) => if c == dst then [] else NotFrom(q, c)
      case RegisterPath(_, _) => q
  }

  lemma {:induction false} QueueFollows(s: RelayState, e: Event, dst: Id)
    ensures var (t, out) := Step(s, e);
      var q := QueueOf(s, dst);
      && QueueOf(t, dst) == (match e
           case OfferFrame(a, b, raw) => if b == dst && out == Answer(true) then q + [Item(a, raw)] else q
           case DrainQueue(b) => if b == dst then [] else q
           case DropPeer(c) => if c == dst then [] else NotFrom(q, c)
           case RegisterPath(_, _) => q)
      && (e == DrainQueue(dst) ==> out == Drained(q))
  {
    if e.DropPeer? { WithoutIsNotFrom(QueueOf(s, dst), e.client); }
    hide Without, NotFrom;
  }

  /** In every run each queue is, across all its sources, what was accepted for it in order and neither taken nor
      purged; and a drain hands over exactly that. */
  lemma {:induction false} QueueInOrder(events: seq<Event>, dst: Id)
    ensures QueueOf(Exec(events), dst) == WaitingFor(events, dst)
    ensures Step(Exec(events), DrainQueue(dst)).1 == Drained(WaitingFor(events, dst))
  {
    if events != [] {
      var prior, e := events[..|events| - 1], events[|events| - 1];
      QueueInOrder(prior, dst);
      QueueFollows(Exec(prior), e, dst);
    }
    QueueFollows(Exec(events), DrainQueue(dst), dst);
  }

  /** How many offers of a run met an open path and a full queue. */
  function Overflows(events: seq<Event>): (n: nat)
  {
    if events == [] then 0
    else
      var prior, e := events[..|events| - 1], events[|events| - 1];
      Overflows(prior) +
        if e.OfferFrame? && ChannelOf(prior, e.src, e.dst).open && |WaitingFor(prior, e.dst)| == 1024 then 1 else 0
  }

  /** The drop counter counts exactly these. */
  lemma {:induction false} DropsCounted(events: seq<Event>)
    ensures Exec(events).dropped == Overflows(events)
  {
    if events != [] {
      var prior, e := events[..|events| - 1], events[|events| - 1];
      DropsCounted(prior);
      if e.OfferFrame? {
        QueueInOrder(prior, e.dst);
        AnswersExactly(prior, e.src, e.dst, e.raw);
      }
      hide ChannelOf, WaitingFor, Without, Offer;
    }
  }
}
