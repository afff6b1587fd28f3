/** Hole punching and key agreement between two clients (client/nat_traversal.py, client/tunnel_manager.py).

    The network keeps every datagram ever sent, and a receive step takes any datagram addressed to
    the receiver: a datagram never taken is lost, one taken twice is duplicated, and the order of
    receipt is free. Each side makes one attempt. */
module Handshake {
  import opened Bytes
  import opened Frames
  import opened Crypto

  datatype Side = Left | Right {
    function Peer(): Side { if Left? then Right else Left }
  }

  /** `create_tunnel` runs the active wait of `punch_peer`, `accept_tunnel` the passive one of `accept_punch`. */
  datatype Role = Active | Passive

  datatype Party = Party(role: Role, privateKey: bytes, hasControl: bool)

  datatype Config = Config(suite: Suite, left: Party, right: Party) {
    function Of(x: Side): Party { if x.Left? then left else right }
    function Public(x: Side): bytes { suite.publicKey(Of(x).privateKey) }
    function SharedKey(): Option<bytes> { SessionKey(suite, left.privateKey, Public(Right)) }
  }

  // ---- What one received datagram does -----------------------------------

  datatype Reaction = Ignore | Hear(payload: bytes, reply: Option<bytes>)

  /** The body of both waiting loops: which datagram ends the wait, with what payload and what reply. */
  function React(role: Role, ownPublic: bytes, data: bytes): (r: Reaction)
    requires |ownPublic| <= MAX_PAYLOAD
  {
    match UnpackFrame(data)
    case Err(_) => Ignore
    case Ok(f) =>
      if role.Active? && f.kind == FRAME_PUNCH_ACK then Hear(f.payload, None)
      else if f.kind == FRAME_PUNCH then
        Hear(f.payload, Some(PunchAckFrame(if role.Active? then [] else ownPublic)))
      else Ignore
  }

  // ---- The waiting loops --------------------------------------------------

  datatype Addr = Addr(host: string, port: int)
  datatype Receipt = Datagram(data: bytes, addr: Addr) | TimedOut | SocketError
  datatype Sent = Sent(data: bytes, addr: Addr)

  /** One round of a waiting loop: the clock reading of its guard, then the outcome of `recvfrom`. */
  datatype Round = Round(now: real, receipt: Receipt)

  /** `Raised` is the OSError of a reply that cannot be sent; it leaves the function. */
  datatype Wait = Reached(addr: Addr, peerKey: bytes) | GaveUp | Raised

  predicate PassedOver(role: Role, ownPublic: bytes, r: Receipt)
    requires |ownPublic| <= MAX_PAYLOAD
  {
    match r
    case Datagram(data, _) => React(role, ownPublic, data).Ignore?
    case TimedOut => role.Active?
    case SocketError => false
  }

  /** The wait goes on through the rounds before `i`: the deadline has not come, and nothing in them ends it. */
  predicate WaitsUntil(role: Role, ownPublic: bytes, deadline: real, rounds: seq<Round>, i: int)
    requires |ownPublic| <= MAX_PAYLOAD
  {
    && 0 <= i <= |rounds|
    && forall j :: 0 <= j < i ==> rounds[j].now < deadline && PassedOver(role, ownPublic, rounds[j].receipt)
  }

  /** It ends at round `i` with a datagram it was waiting for. */
  predicate HeardAt(role: Role, ownPublic: bytes, deadline: real, rounds: seq<Round>, i: int)
    requires |ownPublic| <= MAX_PAYLOAD
  {
    && WaitsUntil(role, ownPublic, deadline, rounds, i) && i < |rounds| && rounds[i].now < deadline
    && rounds[i].receipt.Datagram? && React(role, ownPublic, rounds[i].receipt.data).Hear?
  }

  /** It ends without one at round `i`: the deadline has come, the socket gives nothing, or there is nothing more. */
  predicate GivenUpAt(role: Role, ownPublic: bytes, deadline: real, rounds: seq<Round>, i: int)
    requires |ownPublic| <= MAX_PAYLOAD
  {
    && WaitsUntil(role, ownPublic, deadline, rounds, i)
    && (i < |rounds| ==>
          || rounds[i].now >= deadline
          || (!rounds[i].receipt.Datagram? && !PassedOver(role, ownPublic, rounds[i].receipt)))
  }

  lemma {:induction false} WaitsOn(role: Role, ownPublic: bytes, deadline: real, rounds: seq<Round>, i: nat)
    requires |ownPublic| <= MAX_PAYLOAD && WaitsUntil(role, ownPublic, deadline, rounds, i) && i < |rounds|
    requires rounds[i].now < deadline && PassedOver(role, ownPublic, rounds[i].receipt)
    ensures WaitsUntil(role, ownPublic, deadline, rounds, i + 1)
  {
    hide PassedOver;
  }

  /** Nothing is heard after an error, nor, by a passive end, after a time-out. */
  lemma {:induction false} ErrorsEndWait(role: Role, ownPublic: bytes, deadline: real, rounds: seq<Round>, i: int,
                                         j: nat)
    requires |ownPublic| <= MAX_PAYLOAD && HeardAt(role, ownPublic, deadline, rounds, i) && j < i
    ensures rounds[j].receipt != SocketError && rounds[j].now < deadline
    ensures role == Passive ==> rounds[j].receipt != TimedOut
  {
  }

  /** A wait that is given up never hears anything. */
  lemma {:induction false} GivenUpHearsNothing(role: Role, ownPublic: bytes, deadline: real,
                                               rounds: seq<Round>, at: int)
    requires |ownPublic| <= MAX_PAYLOAD && GivenUpAt(role, ownPublic, deadline, rounds, at)
    ensures forall i :: !HeardAt(role, ownPublic, deadline, rounds, i)
  {
  }

  function Timeouts(rounds: seq<Round>): (n: nat)
  {
    if rounds == [] then 0
    else Timeouts(rounds[..|rounds| - 1]) + if rounds[|rounds| - 1].receipt.TimedOut? then 1 else 0
  }

  function Salvo(frame: bytes, endpoints: seq<Addr>): (s: seq<Sent>)
  {
    seq(|endpoints|, i requires 0 <= i < |endpoints| => Sent(frame, endpoints[i]))
  }

  function Salvos(frame: bytes, endpoints: seq<Addr>, n: nat): (s: seq<Sent>)
  {
    if n == 0 then [] else Salvos(frame, endpoints, n - 1) + Salvo(frame, endpoints)
  }

  lemma {:induction false} FirstSalvo(frame: bytes, endpoints: seq<Addr>)
    ensures Salvo(frame, endpoints) == Salvos(frame, endpoints, 1 + Timeouts([]))
  {
    hide Salvo;
    assert Salvos(frame, endpoints, 0) + Salvo(frame, endpoints) == Salvo(frame, endpoints);
  }

  lemma {:induction false} NextRound(frame: bytes, endpoints: seq<Addr>, rounds: seq<Round>, i: nat)
    requires i < |rounds|
    ensures var n := 1 + Timeouts(rounds[..i]);
      Salvos(frame, endpoints, 1 + Timeouts(rounds[..i + 1])) ==
        if rounds[i].receipt.TimedOut? then Salvos(frame, endpoints, n) + Salvo(frame, endpoints)
        else Salvos(frame, endpoints, n)
  {
    hide Salvo;
    assert rounds[..i + 1][..i] == rounds[..i];
  }

  /** `punch_peer`. `sent` lists its `sendto` calls: a failing one in a salvo is passed over, a failing reply raises. */
  method PunchPeer(endpoints: seq<Addr>, ownPublic: bytes, deadline: real, rounds: seq<Round>, replyFails: bool)
    returns (r: Wait, sent: seq<Sent>, ghost at: int)
    requires |ownPublic| <= MAX_PAYLOAD
    ensures endpoints == [] ==> r.GaveUp? && sent == []
    ensures endpoints != [] ==> (!r.GaveUp? <==> exists i :: HeardAt(Active, ownPublic, deadline, rounds, i))
    ensures endpoints != [] && r.GaveUp? ==>
      && GivenUpAt(Active, ownPublic, deadline, rounds, at)
      && sent == Salvos(PunchFrame(ownPublic), endpoints, 1 + Timeouts(rounds[..at]))
    ensures !r.GaveUp? ==>
      && HeardAt(Active, ownPublic, deadline, rounds, at)
      && var Datagram(data, from) := rounds[at].receipt;
         var reaction := React(Active, ownPublic, data);
         && (r.Raised? <==> reaction.reply.Some? && replyFails)
         && (r.Reached? ==> r == Reached(from, reaction.payload))
         && sent == Salvos(PunchFrame(ownPublic), endpoints, 1 + Timeouts(rounds[..at]))
                  + if reaction.reply.Some? then [Sent(reaction.reply.value, from)] else []
  {
    hide React, Salvo, Salvos, Timeouts, PunchFrame;
    r, sent, at := GaveUp, [], -1;
    if endpoints == [] { return; }
    var punch := PunchFrame(ownPublic);
    sent := Salvo(punch, endpoints);
    FirstSalvo(punch, endpoints);
    assert rounds[..0] == [];
    var i := 0;
    while i < |rounds|
      invariant r.GaveUp? && WaitsUntil(Active, ownPublic, deadline, rounds, i)
      invariant sent == Salvos(punch, endpoints, 1 + Timeouts(rounds[..i]))
    {
      at := i;
      if rounds[i].now >= deadline || rounds[i].receipt.SocketError? {
        GivenUpHearsNothing(Active, ownPublic, deadline, rounds, i);
        return;
      }
      NextRound(punch, endpoints, rounds, i);
      match rounds[i].receipt {
        case TimedOut => sent := sent + Salvo(punch, endpoints);
        case Datagram(data, from) =>
          match React(Active, ownPublic, data) {
            case Ignore =>
            case Hear(payload, reply) =>
              assert HeardAt(Active, ownPublic, deadline, rounds, i);
              sent := sent + if reply.Some? then [Sent(reply.value, from)] else [];
              r := if reply.Some? && replyFails then Raised else Reached(from, payload);
              return;
          }
      }
      WaitsOn(Active, ownPublic, deadline, rounds, i);
      i := i + 1;
    }
    at := i;
    GivenUpHearsNothing(Active, ownPublic, deadline, rounds, i);
  }

  /** `accept_punch`: the passive wait gives up at the first timeout. */
  method AcceptPunch(ownPublic: bytes, deadline: real, rounds: seq<Round>, replyFails: bool)
    returns (r: Wait, sent: seq<Sent>, ghost at: int)
    requires |ownPublic| <= MAX_PAYLOAD
    ensures !r.GaveUp? <==> exists i :: HeardAt(Passive, ownPublic, deadline, rounds, i)
    ensures r.GaveUp? ==> sent == []
    ensures !r.GaveUp? ==>
      && HeardAt(Passive, ownPublic, deadline, rounds, at)
      && var Datagram(data, from) := rounds[at].receipt;
         && r == (if replyFails then Raised else Reached(from, React(Passive, ownPublic, data).payload))
         && sent == [Sent(PunchAckFrame(ownPublic), from)]
  {
    hide React, PunchAckFrame;
    r, sent, at := GaveUp, [], -1;
    var i := 0;
    while i < |rounds|
      invariant r.GaveUp? && sent == [] && WaitsUntil(Passive, ownPublic, deadline, rounds, i)
    {
      if rounds[i].now >= deadline || !rounds[i].receipt.Datagram? {
        GivenUpHearsNothing(Passive, ownPublic, deadline, rounds, i);
        return;
      }
      var Datagram(data, from) := rounds[i].receipt;
      var reaction := React(Passive, ownPublic, data);
      if reaction.Hear? {
        assert HeardAt(Passive, ownPublic, deadline, rounds, i);
        at, sent := i, [Sent(PunchAckFrame(ownPublic), from)];
        r := if replyFails then Raised else Reached(from, reaction.payload);
        return;
      }
      WaitsOn(Passive, ownPublic, deadline, rounds, i);
      i := i + 1;
    }
    GivenUpHearsNothing(Passive, ownPublic, deadline, rounds, i);
  }

  // ---- The two-party protocol ---------------------------------------------

  /** A reply that cannot be sent ends an active wait, as `GiveUp` does; it leaves a passive end PUNCHING with nobody
      listening, which is one that receives nothing more.

      `Heard` is the gap between the wait's return and the coroutine that installs the cipher;
      `Relayed` is CONNECTED with `fallback_relay`; `BadKey` is an EncryptionError leaving the coroutine. */
  datatype Phase = Idle | Punching | Heard(payload: bytes) | Connected | Relayed | Failed | BadKey | Closed

  /** `via` is the datagram that ended this end's wait. */
  datatype End = End(phase: Phase, cipher: Option<bytes>, via: bytes)

  datatype Packet = Packet(dst: Side, data: bytes)

  datatype State = State(left: End, right: End, net: set<Packet>) {
    function Of(x: Side): End { if x.Left? then left else right }
    function With(x: Side, e: End): State { if x.Left? then this.(left := e) else this.(right := e) }
    function Send(x: Side, data: bytes): State { this.(net := net + {Packet(x.Peer(), data)}) }
  }

  datatype Event =
    | Start(side: Side)
    | Resend(side: Side)
    | Receive(side: Side, data: bytes)
    | Install(side: Side)
    | GiveUp(side: Side)
    | Emit(side: Side, data: bytes)
    | Close(side: Side)

  const INIT := State(End(Idle, None, []), End(Idle, None, []), {})

  predicate Waiting(p: Phase) { p.Idle? || p.Punching? }

  predicate IsDataPlane(data: bytes) {
    var f := UnpackFrame(data);
    f.Ok? && f.value.kind in {FRAME_DATA, FRAME_KEEPALIVE, FRAME_CLOSE}
  }

  predicate IsEmptyAck(data: bytes) {
    var f := UnpackFrame(data);
    f.Ok? && f.value.kind == FRAME_PUNCH_ACK && f.value.payload == []
  }

  function ReceiveStep(cfg: Config, s: State, x: Side, data: bytes): (t: State)
    requires |cfg.Public(x)| == KEY_LENGTH
  {
    var e := s.Of(x);
    match e.phase
    case Punching =>
      (match React(cfg.Of(x).role, cfg.Public(x), data)
       case Ignore => s
       case Hear(payload, reply) =>
         var t := s.With(x, e.(phase := Heard(payload), via := data));
         if reply.Some? then t.Send(x, reply.value) else t)
    case Connected | Relayed =>
      (match UnpackFrame(data)
       case Err(_) => s
       case Ok(f) =>
         if f.kind == FRAME_PUNCH then s.Send(x, PunchAckFrame([]))
         else if f.kind == FRAME_CLOSE then s.With(x, e.(phase := Closed))
         else s)
    case _ => s
  }

  function InstallStep(cfg: Config, s: State, x: Side): (t: State)
    requires s.Of(x).phase.Heard?
  {
    var e := s.Of(x);
    var payload := e.phase.payload;
    if payload == [] then s.With(x, e.(phase := Connected))
    else
      match SessionKey(cfg.suite, cfg.Of(x).privateKey, payload)
      case None => s.With(x, e.(phase := BadKey))
      case Some(k) => s.With(x, e.(phase := Connected, cipher := Some(k)))
  }

  /** One step of either side; an event that is not enabled changes nothing. */
  function Apply(cfg: Config, s: State, ev: Event): (t: State)
    requires forall x: Side :: |cfg.Public(x)| == KEY_LENGTH
  {
    var x := ev.side;
    var e := s.Of(x);
    match ev
    case Start(_) =>
      if !e.phase.Idle? then s
      else
        var t := s.With(x, e.(phase := Punching));
        if cfg.Of(x).role.Active? then t.Send(x, PunchFrame(cfg.Public(x))) else t
    case Resend(_) =>
      if e.phase.Punching? && cfg.Of(x).role.Active? then s.Send(x, PunchFrame(cfg.Public(x))) else s
    case Receive(_, data) => if Packet(x, data) in s.net then ReceiveStep(cfg, s, x, data) else s
    case Install(_) => if e.phase.Heard? then InstallStep(cfg, s, x) else s
    case GiveUp(_) =>
      if !e.phase.Punching? then s
      else s.With(x, e.(phase := if cfg.Of(x).role.Active? && cfg.Of(x).hasControl then Relayed else Failed))
    case Emit(_, data) => if e.phase.Connected? && IsDataPlane(data) then s.Send(x, data) else s
    case Close(_) => if e.phase.Connected? || e.phase.Relayed? then s.With(x, e.(phase := Closed)) else s
  }

  function Exec(cfg: Config, events: seq<Event>): (s: State)
    requires forall x: Side :: |cfg.Public(x)| == KEY_LENGTH
  {
    if events == [] then INIT
    else Apply(cfg, Exec(cfg, events[..|events| - 1]), events[|events| - 1])
  }

  // ---- The invariant ------------------------------------------------------

  /** What a datagram in the network says about the state of the side that sent it. */
  ghost predicate Honest(cfg: Config, s: State, p: Packet) {
    var src := p.dst.Peer();
    var f := UnpackFrame(p.data);
    && f.Ok?
    && (f.value.kind == FRAME_PUNCH ==> f.value.payload == cfg.Public(src) && !s.Of(src).phase.Idle?)
    && (f.value.kind == FRAME_PUNCH_ACK ==>
          && !Waiting(s.Of(src).phase)
          && (f.value.payload == [] || f.value.payload == cfg.Public(src)))
  }

  ghost predicate HeardVia(cfg: Config, s: State, x: Side, payload: bytes)
    requires |cfg.Public(x)| == KEY_LENGTH
  {
    var via := s.Of(x).via;
    && Packet(x, via) in s.net
    && React(cfg.Of(x).role, cfg.Public(x), via).Hear?
    && React(cfg.Of(x).role, cfg.Public(x), via).payload == payload
  }

  ghost predicate EndOk(cfg: Config, s: State, x: Side)
    requires |cfg.Public(x)| == KEY_LENGTH
  {
    var e := s.Of(x);
    && !e.phase.BadKey?
    && (e.cipher.Some? ==> e.cipher == SessionKey(cfg.suite, cfg.Of(x).privateKey, cfg.Public(x.Peer())))
    && match e.phase
       case Heard(payload) => e.cipher.None? && HeardVia(cfg, s, x, payload)
       case Connected => HeardVia(cfg, s, x, if e.cipher.None? then [] else cfg.Public(x.Peer()))
       case Closed => true
       case _ => e.cipher.None?
  }

  ghost predicate Inv(cfg: Config, s: State)
    requires forall x: Side :: |cfg.Public(x)| == KEY_LENGTH
  {
    && (forall p :: p in s.net ==> Honest(cfg, s, p))
    && EndOk(cfg, s, Left)
    && EndOk(cfg, s, Right)
  }

  /** Steps only lose the `Idle` and `Waiting` phases, so what a sent datagram says stays true. */
  ghost predicate Onward(s: State, t: State) {
    forall x: Side ::
      && (t.Of(x).phase.Idle? ==> s.Of(x).phase.Idle?)
      && (Waiting(t.Of(x).phase) ==> Waiting(s.Of(x).phase))
  }

  lemma {:induction false} StepOnward(cfg: Config, s: State, ev: Event)
    requires forall x: Side :: |cfg.Public(x)| == KEY_LENGTH
    ensures Onward(s, Apply(cfg, s, ev)) && s.net <= Apply(cfg, s, ev).net
  {
    hide UnpackFrame, PunchFrame, PunchAckFrame;
  }

  lemma {:induction false} StepSendsHonestly(cfg: Config, s: State, ev: Event, p: Packet)
    requires cfg.suite.Lawful() && p in Apply(cfg, s, ev).net && p !in s.net
    ensures Honest(cfg, Apply(cfg, s, ev), p)
  {
    hide UnpackFrame, PunchFrame, PunchAckFrame;
    var x := ev.side;
    assert p.dst == x.Peer() && x.Peer().Peer() == x;
    match ev {
      case Receive(_, data) =>
        ReplyIsHonest(cfg, s, x, data, p);
      case _ =>
    }
  }

  lemma {:induction false} ReplyIsHonest(cfg: Config, s: State, x: Side, data: bytes, p: Packet)
    requires cfg.suite.Lawful() && p in ReceiveStep(cfg, s, x, data).net && p !in s.net
    ensures Honest(cfg, ReceiveStep(cfg, s, x, data), p)
  {
    hide UnpackFrame, PunchFrame, PunchAckFrame;
    assert p.dst.Peer() == x;
    assert p.data == PunchAckFrame([]) || p.data == PunchAckFrame(cfg.Public(x));
    assert !Waiting(ReceiveStep(cfg, s, x, data).Of(x).phase);
  }

  lemma {:induction false} StepKeepsActor(cfg: Config, s: State, ev: Event)
    requires cfg.suite.Lawful() && Inv(cfg, s)
    ensures EndOk(cfg, Apply(cfg, s, ev), ev.side)
  {
    hide UnpackFrame, PunchFrame, PunchAckFrame;
    var x := ev.side;
    match ev {
      case Receive(_, data) =>
        hide ReceiveStep, Honest, React;
        if Packet(x, data) in s.net { ReceiveKeepsActor(cfg, s, x, data); }
      case Install(_) =>
        hide InstallStep, Honest, React;
        if s.Of(x).phase.Heard? { InstallKeepsActor(cfg, s, x); }
      case _ =>
        hide Honest, React;
        StepOnward(cfg, s, ev);
    }
  }

  lemma {:induction false} ReceiveKeepsActor(cfg: Config, s: State, x: Side, data: bytes)
    requires cfg.suite.Lawful() && EndOk(cfg, s, x) && Packet(x, data) in s.net
    ensures EndOk(cfg, ReceiveStep(cfg, s, x, data), x)
  {
    hide UnpackFrame, PunchFrame, PunchAckFrame;
  }

  lemma {:induction false} InstallKeepsActor(cfg: Config, s: State, x: Side)
    requires cfg.suite.Lawful() && EndOk(cfg, s, x) && s.Of(x).phase.Heard?
    requires Honest(cfg, s, Packet(x, s.Of(x).via))
    ensures EndOk(cfg, InstallStep(cfg, s, x), x)
  {
    hide UnpackFrame, PunchFrame, PunchAckFrame;
    var payload := s.Of(x).phase.payload;
    assert payload == [] || payload == cfg.Public(x.Peer());
  }

  lemma {:induction false} StepKeepsOther(cfg: Config, s: State, ev: Event)
    requires cfg.suite.Lawful() && EndOk(cfg, s, ev.side.Peer())
    ensures EndOk(cfg, Apply(cfg, s, ev), ev.side.Peer())
  {
    hide UnpackFrame, PunchFrame, PunchAckFrame;
    StepOnward(cfg, s, ev);
    assert Apply(cfg, s, ev).Of(ev.side.Peer()) == s.Of(ev.side.Peer());
  }

  lemma {:induction false} InvStep(cfg: Config, s: State, ev: Event)
    requires cfg.suite.Lawful() && Inv(cfg, s)
    ensures Inv(cfg, Apply(cfg, s, ev))
  {
    hide UnpackFrame, PunchFrame, PunchAckFrame;
    var t := Apply(cfg, s, ev);
    StepOnward(cfg, s, ev);
    forall p | p in t.net
      ensures Honest(cfg, t, p)
    {
      if p in s.net { assert Honest(cfg, s, p); } else { StepSendsHonestly(cfg, s, ev, p); }
    }
    StepKeepsActor(cfg, s, ev);
    StepKeepsOther(cfg, s, ev);
  }

  lemma {:induction false} InvAlways(cfg: Config, events: seq<Event>)
    requires cfg.suite.Lawful()
    ensures Inv(cfg, Exec(cfg, events))
  {
    if events != [] {
      InvAlways(cfg, events[..|events| - 1]);
      InvStep(cfg, Exec(cfg, events[..|events| - 1]), events[|events| - 1]);
    }
  }

  // ---- What every run guarantees ------------------------------------------

  /** In every interleaving, a cipher held by either end carries the one key both private keys determine. */
  lemma {:induction false} KeysAgree(cfg: Config, events: seq<Event>)
    requires cfg.suite.Lawful()
    ensures var s := Exec(cfg, events);
      && (s.left.cipher.Some? && s.right.cipher.Some? ==> s.left.cipher == s.right.cipher)
      && (forall x: Side :: s.Of(x).cipher.Some? ==> s.Of(x).cipher == cfg.SharedKey())
  {
    InvAlways(cfg, events);
    SessionKeysAgree(cfg.suite, cfg.left.privateKey, cfg.right.privateKey);
  }

  /** And keys tell pairs apart: if the shared secrets of two pairs derive different keys, no cipher of any run of one
      pair equals a cipher of any run of the other. */
  lemma {:induction false} KeysTellPairsApart(cfg: Config, events: seq<Event>, x: Side,
                                              other: Config, otherEvents: seq<Event>, y: Side)
    requires cfg.suite.Lawful() && other.suite.Lawful()
    requires cfg.suite.hkdf(cfg.suite.exchange(cfg.left.privateKey, cfg.Public(Right)))
          != other.suite.hkdf(other.suite.exchange(other.left.privateKey, other.Public(Right)))
    ensures var c, d := Exec(cfg, events).Of(x).cipher, Exec(other, otherEvents).Of(y).cipher;
      c.Some? && d.Some? ==> c != d
  {
    hide Exec;
    KeysAgree(cfg, events);
    KeysAgree(other, otherEvents);
  }

  /** An end connected over P2P lacks a cipher exactly when an empty PUNCH_ACK ended its wait. */
  lemma {:induction false} CipherlessExactly(cfg: Config, events: seq<Event>, x: Side)
    requires cfg.suite.Lawful()
    requires Exec(cfg, events).Of(x).phase.Connected?
    ensures var s := Exec(cfg, events);
      && Packet(x, s.Of(x).via) in s.net
      && (s.Of(x).cipher.None? <==> IsEmptyAck(s.Of(x).via))
  {
    hide UnpackFrame, PunchFrame, PunchAckFrame;
    InvAlways(cfg, events);
    var s := Exec(cfg, events);
    assert Honest(cfg, s, Packet(x, s.Of(x).via));
  }

  /** Such an end is an active one, and its peer had already heard from it or fallen back to the relay. */
  lemma {:induction false} CipherlessOnlyActive(cfg: Config, events: seq<Event>, x: Side)
    requires cfg.suite.Lawful()
    requires Exec(cfg, events).Of(x).phase.Connected? && Exec(cfg, events).Of(x).cipher.None?
    ensures cfg.Of(x).role.Active?
    ensures !Waiting(Exec(cfg, events).Of(x.Peer()).phase)
  {
    hide UnpackFrame, PunchFrame, PunchAckFrame;
    InvAlways(cfg, events);
    var s := Exec(cfg, events);
    assert Honest(cfg, s, Packet(x, s.Of(x).via));
  }

  /** The key-length EncryptionError never leaves either coroutine. */
  lemma {:induction false} NeverRaises(cfg: Config, events: seq<Event>, x: Side)
    requires cfg.suite.Lawful()
    ensures !Exec(cfg, events).Of(x).phase.BadKey?
  {
    InvAlways(cfg, events);
  }

  // ---- How an attempt ends ---------------------------------------------------

  predicate IsClose(data: bytes) { var f := UnpackFrame(data); f.Ok? && f.value.kind == 4 }

  /** What has happened to an end in a run, by its phase. */
  ghost predicate EndedRightly(cfg: Config, events: seq<Event>, x: Side, p: Phase) {
    && (p.Idle? <==> Start(x) !in events)
    && (p.Relayed? ==> cfg.Of(x).role.Active? && cfg.Of(x).hasControl && GiveUp(x) in events)
    && (p.Failed? ==> !(cfg.Of(x).role.Active? && cfg.Of(x).hasControl) && GiveUp(x) in events)
    && (p.Closed? ==> Close(x) in events || exists d :: Receive(x, d) in events && IsClose(d))
    && (p.Connected? ==> Install(x) in events)
  }

  lemma {:induction false} EndsStep(cfg: Config, events: seq<Event>, ev: Event, x: Side)
    requires forall y: Side :: |cfg.Public(y)| == KEY_LENGTH
    requires EndedRightly(cfg, events, x, Exec(cfg, events).Of(x).phase)
    ensures EndedRightly(cfg, events + [ev], x, Apply(cfg, Exec(cfg, events), ev).Of(x).phase)
  {
    hide UnpackFrame, PunchFrame, PunchAckFrame, React, Exec;
    var s := Exec(cfg, events);
    assert forall e :: e in events + [ev] <==> e in events || e == ev;
    if s.Of(x).phase.Closed? && Close(x) !in events {
      var d :| Receive(x, d) in events && IsClose(d);
      assert Receive(x, d) in events + [ev];
    }
    if ev.Receive? && ev.side == x { assert IsClose(ev.data) ==> Receive(x, ev.data) in events + [ev]; }
  }

  /** In every run an end falls back to the relay only if it is active and has a control channel, fails only if not,
      closes only when told to by its user or a CLOSE frame, and is idle exactly until it is started. */
  lemma {:induction false} EndsRightly(cfg: Config, events: seq<Event>, x: Side)
    requires cfg.suite.Lawful()
    ensures EndedRightly(cfg, events, x, Exec(cfg, events).Of(x).phase)
  {
    if events != [] {
      var prior, ev := events[..|events| - 1], events[|events| - 1];
      hide Exec, EndedRightly;
      EndsRightly(cfg, prior, x);
      EndsStep(cfg, prior, ev, x);
      ExecAppend(cfg, prior, ev);
      assert prior + [ev] == events;
    }
  }

  /** A CLOSE frame, or its user, closes an end that is connected or relayed. */
  lemma {:induction false} ClosesOnDemand(cfg: Config, events: seq<Event>, x: Side, data: bytes)
    requires cfg.suite.Lawful() && Packet(x, data) in Exec(cfg, events).net && IsClose(data)
    requires Exec(cfg, events).Of(x).phase.Connected? || Exec(cfg, events).Of(x).phase.Relayed?
    ensures Exec(cfg, events + [Receive(x, data)]).Of(x).phase.Closed?
    ensures Exec(cfg, events + [Close(x)]).Of(x).phase.Closed?
  {
    hide UnpackFrame, React, PunchAckFrame;
    ExecAppend(cfg, events, Receive(x, data));
    ExecAppend(cfg, events, Close(x));
  }

  /** Once it has heard, an end installs a cipher if it heard a key of 32 bytes, goes without one if it heard none, and
      fails with an error on anything else. */
  lemma {:induction false} InstallsExactly(cfg: Config, s: State, x: Side)
    requires s.Of(x).phase.Heard?
    ensures var t := InstallStep(cfg, s, x);
      var payload := s.Of(x).phase.payload;
      && (t.Of(x).phase.Connected? <==> |payload| == 0 || |payload| == 32)
      && (t.Of(x).phase.BadKey? <==> |payload| != 0 && |payload| != 32)
      && (|payload| == 32 ==>
            t.Of(x).cipher == Some(cfg.suite.hkdf(cfg.suite.exchange(cfg.Of(x).privateKey, payload))))
      && (|payload| != 32 ==> t.Of(x).cipher == s.Of(x).cipher)
      && t.Of(x.Peer()) == s.Of(x.Peer()) && t.net == s.net
  {
  }

  /** Giving up at once: relayed exactly if active and with a control channel, failed otherwise. */
  lemma {:induction false} GivesUpExactly(cfg: Config, x: Side)
    requires cfg.suite.Lawful()
    ensures var p := Exec(cfg, [Start(x)] + [GiveUp(x)]).Of(x).phase;
      && (p.Relayed? <==> cfg.Of(x).role.Active? && cfg.Of(x).hasControl)
      && (p.Failed? <==> !(cfg.Of(x).role.Active? && cfg.Of(x).hasControl))
  {
    hide PunchFrame;
    ExecAppend(cfg, [], Start(x));
    assert [] + [Start(x)] == [Start(x)];
    ExecAppend(cfg, [Start(x)], GiveUp(x));
  }

  /** How the two waits answer the frames of the protocol. */
  lemma {:induction false} ReactsToFrames(own: bytes, key: bytes)
    requires |own| <= MAX_PAYLOAD && |key| <= MAX_PAYLOAD
    ensures React(Active, own, PunchFrame(key)) == Hear(key, Some(PunchAckFrame([])))
    ensures React(Active, own, PunchAckFrame(key)) == Hear(key, None)
    ensures React(Passive, own, PunchFrame(key)) == Hear(key, Some(PunchAckFrame(own)))
    ensures React(Passive, own, PunchAckFrame(key)) == Ignore
  {
    hide UnpackFrame, PunchFrame, PunchAckFrame;
  }

  /** The attempt can succeed: an active and a passive end, nothing lost. */
  lemma {:induction false} BothGetCipher(cfg: Config) returns (events: seq<Event>)
    requires cfg.suite.Lawful() && cfg.left.role.Active? && cfg.right.role.Passive?
    ensures var s := Exec(cfg, events);
      && s.left.phase.Connected? && s.right.phase.Connected?
      && s.left.cipher.Some? && s.left.cipher == s.right.cipher
  {
    hide UnpackFrame, PunchFrame, PunchAckFrame;
    var punch, ack := PunchFrame(cfg.Public(Left)), PunchAckFrame(cfg.Public(Right));
    events := [];
    ExecAppend(cfg, events, Start(Left));
    events := events + [Start(Left)];
    ExecAppend(cfg, events, Start(Right));
    events := events + [Start(Right)];
    ExecAppend(cfg, events, Receive(Right, punch));
    events := events + [Receive(Right, punch)];
    ExecAppend(cfg, events, Receive(Left, ack));
    events := events + [Receive(Left, ack)];
    ExecAppend(cfg, events, Install(Left));
    events := events + [Install(Left)];
    ExecAppend(cfg, events, Install(Right));
    events := events + [Install(Right)];
    KeysAgree(cfg, events);
  }

  // ---- Agreement of *presence* is not guaranteed --------------------------

  lemma {:induction false} ExecAppend(cfg: Config, events: seq<Event>, ev: Event)
    requires forall x: Side :: |cfg.Public(x)| == KEY_LENGTH
    ensures Exec(cfg, events + [ev]) == Apply(cfg, Exec(cfg, events), ev)
  {
    assert (events + [ev])[..|events + [ev]| - 1] == events;
  }

  /** Two active ends: one hears the other's PUNCH, the other hears only the key-less acknowledgement. */
  lemma {:induction false} OneSidedCipherBothActive(cfg: Config) returns (events: seq<Event>)
    requires cfg.suite.Lawful() && cfg.left.role.Active? && cfg.right.role.Active?
    ensures var s := Exec(cfg, events);
      && s.left.phase.Connected? && s.left.cipher.Some?
      && s.right.phase.Connected? && s.right.cipher.None?
  {
    hide UnpackFrame, PunchFrame, PunchAckFrame;
    var punch, ack := PunchFrame(cfg.Public(Right)), PunchAckFrame([]);
    events := [];
    ExecAppend(cfg, events, Start(Left));
    events := events + [Start(Left)];
    ExecAppend(cfg, events, Start(Right));
    events := events + [Start(Right)];
    ExecAppend(cfg, events, Receive(Left, punch));
    events := events + [Receive(Left, punch)];
    ExecAppend(cfg, events, Install(Left));
    events := events + [Install(Left)];
    ExecAppend(cfg, events, Receive(Right, ack));
    events := events + [Receive(Right, ack)];
    ExecAppend(cfg, events, Install(Right));
    events := events + [Install(Right)];
  }

  /** Active against passive: a duplicated PUNCH draws a key-less acknowledgement that overtakes the keyed one. */
  lemma {:induction false} OneSidedCipherActivePassive(cfg: Config) returns (events: seq<Event>)
    requires cfg.suite.Lawful() && cfg.left.role.Active? && cfg.right.role.Passive?
    ensures var s := Exec(cfg, events);
      && s.left.phase.Connected? && s.left.cipher.None?
      && s.right.phase.Connected? && s.right.cipher.Some?
  {
    hide UnpackFrame, PunchFrame, PunchAckFrame;
    var punch, ack := PunchFrame(cfg.Public(Left)), PunchAckFrame([]);
    events := [];
    ExecAppend(cfg, events, Start(Left));
    events := events + [Start(Left)];
    ExecAppend(cfg, events, Start(Right));
    events := events + [Start(Right)];
    ExecAppend(cfg, events, Receive(Right, punch));
    events := events + [Receive(Right, punch)];
    ExecAppend(cfg, events, Install(Right));
    events := events + [Install(Right)];
    ExecAppend(cfg, events, Receive(Right, punch));
    events := events + [Receive(Right, punch)];
    ExecAppend(cfg, events, Receive(Left, ack));
    events := events + [Receive(Left, ack)];
    ExecAppend(cfg, events, Install(Left));
    events := events + [Install(Left)];
  }
}
