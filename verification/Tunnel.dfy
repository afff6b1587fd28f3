/** The tunnel data plane: sending, receiving and sequence numbers (client/tunnel_manager.py). */
module Tunnel {
  import opened Bytes
  import opened Frames
  import opened Crypto
  import opened Handshake

  datatype PunchState = IdleState | PunchingState | ConnectedState | FailedState | ClosedState

  datatype TunnelView = TunnelView(state: PunchState, hasSocket: bool, cipher: Option<bytes>,
                       txSeq: nat, rxSeq: nat, remote: Option<Addr>, lastRx: real)
  {
    predicate CanSend() { state.ConnectedState? && hasSocket && remote.Some? }

    /** The longest packet that still fits the 2-byte length field. */
    function MaxPacket(): nat { if cipher.Some? then MAX_PAYLOAD - NONCE_LENGTH else MAX_PAYLOAD }
  }

  /** `Wire` is the frame given to `sendto`; `Oversized` is the FrameTooLargeError, raised after the counter has
      moved. */
  datatype SendOutcome = NotReady | Oversized | Wire(data: bytes)

  function SendSpec(suite: Suite, v: TunnelView, packet: bytes, nonce: bytes): (r: (TunnelView, SendOutcome))
    requires suite.Lawful()
  {
    if !v.CanSend() then (v, NotReady)
    else
      var (payload, tag) :=
        if v.cipher.None? then (packet, None)
        else var (ct, t) := Encrypt(suite, v.cipher.value, nonce, packet); (ct, Some(t));
      var frame := PackFrame(FRAME_DATA, payload, v.txSeq + 1, FRAME_VERSION, tag);
      (v.(txSeq := v.txSeq + 1), if frame.Ok? then Wire(frame.value) else Oversized)
  }

  datatype Handled = Handled(view: TunnelView, packet: Option<bytes>, reply: Option<bytes>)

  function HandleSpec(suite: Suite, v: TunnelView, data: bytes, addr: Addr, now: real): (r: Handled)
  {
    match UnpackFrame(data)
    case Err(_) => Handled(v, None, None)
    case Ok(f) =>
      if f.kind == FRAME_DATA then
        var plain := if v.cipher.Some? then Decrypt(suite, v.cipher.value, f.payload, f.tag) else Some(f.payload);
        if plain.None? then Handled(v, None, None)
        else Handled(v.(rxSeq := f.seqNum, lastRx := now, remote := Some(addr)), plain, None)
      else if f.kind == FRAME_KEEPALIVE || f.kind == FRAME_PUNCH_ACK then Handled(v.(lastRx := now), None, None)
      else if f.kind == FRAME_CLOSE then Handled(v.(state := ClosedState), None, None)
      else if f.kind == FRAME_PUNCH && v.hasSocket then Handled(v, None, Some(PunchAckFrame([])))
      else Handled(v, None, None)
  }

  class PeerTunnel {
    var state: PunchState
    var hasSocket: bool
    var cipher: Option<bytes>
    var txSeq: nat
    var rxSeq: nat
    var remoteAddr: Option<Addr>
    var lastRx: real

    constructor ()
      ensures View() == TunnelView(IdleState, false, None, 0, 0, None, 0.0)
    {
      state, hasSocket, cipher, txSeq, rxSeq, remoteAddr, lastRx := IdleState, false, None, 0, 0, None, 0.0;
    }

    function View(): TunnelView
      reads this
    {
      TunnelView(state, hasSocket, cipher, txSeq, rxSeq, remoteAddr, lastRx)
    }

    /** `count` is the number of bytes reported as sent: the whole frame, or 0 if `sendto` fails and the frame is
        lost. */
    method SendData(suite: Suite, packet: bytes, nonce: bytes, sendFails: bool) returns (r: SendOutcome, count: nat)
      requires suite.Lawful()
      modifies this`txSeq
      ensures (View(), r) == SendSpec(suite, old(View()), packet, nonce)
      ensures count == if r.Wire? && !sendFails then |r.data| else 0
    {
      hide PackFrame, Encrypt;
      if !state.ConnectedState? { return NotReady, 0; }
      if !hasSocket || remoteAddr.None? { return NotReady, 0; }
      txSeq := txSeq + 1;
      var frame;
      if cipher.Some? {
        var (ciphertext, tag) := Encrypt(suite, cipher.value, nonce, packet);
        frame := PackFrame(FRAME_DATA, ciphertext, txSeq, FRAME_VERSION, Some(tag));
      } else {
        frame := PackFrame(FRAME_DATA, packet, txSeq, FRAME_VERSION, None);
      }
      if frame.Err? { return Oversized, 0; }
      return Wire(frame.value), if sendFails then 0 else |frame.value|;
    }

    method HandleFrame(suite: Suite, data: bytes, addr: Addr, now: real)
      returns (packet: Option<bytes>, reply: Option<bytes>)
      modifies this`state, this`rxSeq, this`lastRx, this`remoteAddr
      ensures Handled(View(), packet, reply) == HandleSpec(suite, old(View()), data, addr, now)
    {
      packet, reply := None, None;
      var unpacked := UnpackFrame(data);
      if unpacked.Err? { return; }
      var frame := unpacked.value;
      if frame.kind == FRAME_DATA {
        var plain := Some(frame.payload);
        if cipher.Some? {
          plain := Decrypt(suite, cipher.value, frame.payload, frame.tag);
          if plain.None? { return; }
        }
        rxSeq := frame.seqNum;
        lastRx := now;
        if remoteAddr != Some(addr) { remoteAddr := Some(addr); }
        packet := plain;
      } else if frame.kind == FRAME_KEEPALIVE {
        lastRx := now;
      } else if frame.kind == FRAME_CLOSE {
        state := ClosedState;
      } else if frame.kind == FRAME_PUNCH {
        if hasSocket { reply := Some(PunchAckFrame([])); }
      } else if frame.kind == FRAME_PUNCH_ACK {
        lastRx := now;
      }
    }
  }

  // ---- Whole conversations -------------------------------------------------

  datatype Outgoing = Outgoing(packet: bytes, nonce: bytes)

  function SendAll(suite: Suite, v: TunnelView, out: seq<Outgoing>): (r: (TunnelView, seq<SendOutcome>))
    requires suite.Lawful()
    ensures |r.1| == |out|
    decreases |out|
  {
    if out == [] then (v, [])
    else
      var (v1, o) := SendSpec(suite, v, out[0].packet, out[0].nonce);
      var (v2, os) := SendAll(suite, v1, out[1..]);
      (v2, [o] + os)
  }

  datatype Arrival = Arrival(data: bytes, addr: Addr, now: real)

  function HandleAll(suite: Suite, w: TunnelView, arrivals: seq<Arrival>): (r: (TunnelView, seq<Option<bytes>>))
    ensures |r.1| == |arrivals|
  {
    if arrivals == [] then (w, [])
    else
      var n := |arrivals| - 1;
      var (w1, ps) := HandleAll(suite, w, arrivals[..n]);
      var h := HandleSpec(suite, w1, arrivals[n].data, arrivals[n].addr, arrivals[n].now);
      (h.view, ps + [h.packet])
  }

  // ---- What a list of arrivals does -------------------------------------------

  predicate IsKind(data: bytes, kind: nat) { var f := UnpackFrame(data); f.Ok? && f.value.kind == kind }

  /** The packet in a DATA frame, where the cipher opens it. */
  function PacketIn(suite: Suite, cipher: Option<bytes>, data: bytes): (p: Option<bytes>)
  {
    if !IsKind(data, 1) then None
    else
      var f := UnpackFrame(data).value;
      if cipher.None? then Some(f.payload) else Decrypt(suite, cipher.value, f.payload, f.tag)
  }

  /** A sign of life: an opened DATA frame, a keep-alive or a PUNCH_ACK. */
  predicate ShowsLife(suite: Suite, cipher: Option<bytes>, data: bytes) {
    PacketIn(suite, cipher, data).Some? || IsKind(data, 3) || IsKind(data, 6)
  }

  /** The last of the arrivals with a given property, if any. */
  function LastWith(arrivals: seq<Arrival>, p: bytes -> bool): (r: Option<Arrival>)
  {
    if arrivals == [] then None
    else if p(arrivals[|arrivals| - 1].data) then Some(arrivals[|arrivals| - 1])
    else LastWith(arrivals[..|arrivals| - 1], p)
  }

  /** After any arrivals: closed if and only if a CLOSE frame was among them; last heard at the last sign of life; the
      counter and the address are those of the last packet opened; nothing else has changed; and the packets handed up
      are those in the opened DATA frames. */
  lemma {:induction false} ArrivalsExactly(suite: Suite, w: TunnelView, arrivals: seq<Arrival>)
    ensures var (v, ps) := HandleAll(suite, w, arrivals);
      var life := LastWith(arrivals, d => ShowsLife(suite, w.cipher, d));
      var unsealed := LastWith(arrivals, d => PacketIn(suite, w.cipher, d).Some?);
      && v.state == (if exists a :: a in arrivals && IsKind(a.data, 4) then ClosedState else w.state)
      && v.lastRx == (if life.Some? then life.value.now else w.lastRx)
      && (unsealed.None? ==> v.rxSeq == w.rxSeq && v.remote == w.remote)
      && (unsealed.Some? ==>
            && UnpackFrame(unsealed.value.data).Ok? && v.rxSeq == UnpackFrame(unsealed.value.data).value.seqNum
            && v.remote == Some(unsealed.value.addr))
      && v.cipher == w.cipher && v.txSeq == w.txSeq && v.hasSocket == w.hasSocket
      && forall i :: 0 <= i < |arrivals| ==> ps[i] == PacketIn(suite, w.cipher, arrivals[i].data)
  {
    hide UnpackFrame, Decrypt, PunchAckFrame;
    if arrivals != [] {
      var front, last := arrivals[..|arrivals| - 1], arrivals[|arrivals| - 1];
      ArrivalsExactly(suite, w, front);
      assert forall a :: a in arrivals <==> a in front || a == last;
      HandlesOne(suite, HandleAll(suite, w, front).0, last.data, last.addr, last.now);
      hide HandleSpec;
    }
  }

  /** One arrival; a reply is made exactly to a PUNCH on a socket, and carries no key. */
  lemma {:induction false} HandlesOne(suite: Suite, v: TunnelView, data: bytes, addr: Addr, now: real)
    ensures var h := HandleSpec(suite, v, data, addr, now);
      && h.packet == PacketIn(suite, v.cipher, data)
      && h.view.state == (if IsKind(data, 4) then ClosedState else v.state)
      && h.view.lastRx == (if ShowsLife(suite, v.cipher, data) then now else v.lastRx)
      && (h.packet.None? ==> h.view.rxSeq == v.rxSeq && h.view.remote == v.remote)
      && (h.packet.Some? ==> h.view.rxSeq == UnpackFrame(data).value.seqNum && h.view.remote == Some(addr))
      && h.view.cipher == v.cipher && h.view.txSeq == v.txSeq && h.view.hasSocket == v.hasSocket
      && (h.reply.Some? <==> IsKind(data, 2) && v.hasSocket)
      && (h.reply.Some? ==> h.reply.value == PunchAckFrame([]))
  {
    hide UnpackFrame, Decrypt, PunchAckFrame;
  }

  /** Nothing is sent, and nothing changes, exactly while the tunnel is not connected or lacks a socket or an address.
      */
  lemma {:induction false} RefusesExactly(suite: Suite, v: TunnelView, packet: bytes, nonce: bytes)
    requires suite.Lawful()
    ensures var (t, o) := SendSpec(suite, v, packet, nonce);
      && (o.NotReady? <==> v.state != ConnectedState || !v.hasSocket || v.remote.None?)
      && t == (if o.NotReady? then v else v.(txSeq := v.txSeq + 1))
  {
    hide PackFrame, Encrypt;
  }

  /** So a CLOSE frame is final: an end that has received one sends nothing more, whatever else arrives. */
  lemma {:induction false} ClosedSendsNothing(suite: Suite, w: TunnelView, arrivals: seq<Arrival>, packet: bytes,
                                              nonce: bytes)
    requires suite.Lawful() && exists a :: a in arrivals && IsKind(a.data, 4)
    ensures SendSpec(suite, HandleAll(suite, w, arrivals).0, packet, nonce).1.NotReady?
  {
    hide HandleAll, IsKind, SendSpec;
    ArrivalsExactly(suite, w, arrivals);
    RefusesExactly(suite, HandleAll(suite, w, arrivals).0, packet, nonce);
  }

  predicate Sendable(v: TunnelView, out: seq<Outgoing>) {
    forall i :: 0 <= i < |out| ==> |out[i].packet| <= v.MaxPacket() && |out[i].nonce| == NONCE_LENGTH
  }

  /** An end that can send puts a packet on the wire if and only if it fits the length field with its nonce; the frame
      is 24 bytes of header and tag longer, and 12 more under a cipher. */
  lemma {:induction false} SendsExactly(suite: Suite, v: TunnelView, packet: bytes, nonce: bytes)
    requires suite.Lawful() && v.CanSend() && |nonce| == NONCE_LENGTH
    ensures var o := SendSpec(suite, v, packet, nonce).1;
      && (o.Wire? <==> |packet| <= v.MaxPacket())
      && (o.Oversized? <==> |packet| > v.MaxPacket())
      && (o.Wire? ==> |o.data| == |packet| + 24 + if v.cipher.Some? then NONCE_LENGTH else 0)
  {
    if v.cipher.Some? { DecryptEncrypted(suite, v.cipher.value, nonce, packet); }
  }

  /** A frame sent by an end is opened by every end that holds the same cipher (or likewise none). */
  lemma {:induction false} OneDelivered(suite: Suite, v: TunnelView, out: Outgoing, w: TunnelView, addr: Addr,
                                        now: real)
    requires suite.Lawful() && v.CanSend() && v.cipher == w.cipher
    requires |out.packet| <= v.MaxPacket() && |out.nonce| == NONCE_LENGTH
    ensures var (v', o) := SendSpec(suite, v, out.packet, out.nonce);
      && v' == v.(txSeq := v.txSeq + 1)
      && o.Wire?
      && HandleSpec(suite, w, o.data, addr, now)
         == Handled(w.(rxSeq := (v.txSeq + 1) % SEQ_MODULUS, lastRx := now, remote := Some(addr)),
                    Some(out.packet), None)
  {
    hide UnpackFrame, PunchAckFrame;
    var frame := SendSpec(suite, v, out.packet, out.nonce).1;
    if v.cipher.Some? {
      DecryptEncrypted(suite, v.cipher.value, out.nonce, out.packet);
      var (ct, tag) := Encrypt(suite, v.cipher.value, out.nonce, out.packet);
      UnpackPacked(FRAME_DATA, ct, v.txSeq + 1, Some(tag), []);
      assert frame.data + [] == frame.data;
    } else {
      UnpackPacked(FRAME_DATA, out.packet, v.txSeq + 1, None, []);
      assert frame.data + [] == frame.data;
    }
  }

  lemma {:induction false} SentFrameDelivered(suite: Suite, v: TunnelView, out: seq<Outgoing>, i: nat,
                                              w: TunnelView, addr: Addr, now: real)
    requires suite.Lawful() && v.CanSend() && v.cipher == w.cipher && Sendable(v, out) && i < |out|
    ensures var (v', os) := SendAll(suite, v, out);
      && v' == v.(txSeq := v.txSeq + |out|)
      && os[i].Wire?
      && HandleSpec(suite, w, os[i].data, addr, now)
         == Handled(w.(rxSeq := (v.txSeq + i + 1) % SEQ_MODULUS, lastRx := now, remote := Some(addr)),
                    Some(out[i].packet), None)
    decreases |out|
  {
    hide SendSpec, HandleSpec;
    OneDelivered(suite, v, out[0], w, addr, now);
    var v1 := SendSpec(suite, v, out[0].packet, out[0].nonce).0;
    if |out| > 1 {
      SentFrameDelivered(suite, v1, out[1..], if i > 0 then i - 1 else 0, w, addr, now);
    }
  }

  /** `arrivals` is the schedule of the network: which sent frame arrives, in which order and how often. */
  predicate Delivers(os: seq<SendOutcome>, schedule: seq<nat>, arrivals: seq<Arrival>) {
    && |schedule| == |arrivals|
    && forall j :: 0 <= j < |schedule| ==>
         schedule[j] < |os| && os[schedule[j]].Wire? && arrivals[j].data == os[schedule[j]].data
  }

  /** Under any loss, duplication and reordering, each arriving frame yields exactly the packet it was
      made from, and the receiver's counter is that of the last arrival modulo 2^32. */
  lemma {:induction false} ScheduleDelivered(suite: Suite, v: TunnelView, out: seq<Outgoing>, w: TunnelView,
                                             schedule: seq<nat>, arrivals: seq<Arrival>)
    requires suite.Lawful() && v.CanSend() && v.cipher == w.cipher && Sendable(v, out)
    requires Delivers(SendAll(suite, v, out).1, schedule, arrivals)
    ensures var (w', ps) := HandleAll(suite, w, arrivals);
      && w'.cipher == w.cipher
      && (forall j :: 0 <= j < |schedule| ==> ps[j] == Some(out[schedule[j]].packet))
      && w'.rxSeq == if schedule == [] then w.rxSeq else (v.txSeq + schedule[|schedule| - 1] + 1) % SEQ_MODULUS
    decreases |schedule|
  {
    hide SendSpec, HandleSpec, SendAll;
    if schedule != [] {
      var n := |schedule| - 1;
      ScheduleDelivered(suite, v, out, w, schedule[..n], arrivals[..n]);
      var w1 := HandleAll(suite, w, arrivals[..n]).0;
      SentFrameDelivered(suite, v, out, schedule[n], w1, arrivals[n].addr, arrivals[n].now);
      forall j | 0 <= j < |schedule|
        ensures HandleAll(suite, w, arrivals).1[j] == Some(out[schedule[j]].packet)
      {
        if j < n { assert schedule[..n][j] == schedule[j]; }
      }
    }
  }

  /** Delivered in order and complete, the two counters agree modulo 2^32. */
  lemma {:induction false} InOrderCounters(suite: Suite, v: TunnelView, out: seq<Outgoing>, w: TunnelView,
                                           arrivals: seq<Arrival>)
    requires suite.Lawful() && v.CanSend() && v.cipher == w.cipher && Sendable(v, out) && out != []
    requires Delivers(SendAll(suite, v, out).1, seq(|out|, i => i), arrivals)
    ensures var (w', ps) := HandleAll(suite, w, arrivals);
      && ps == seq(|out|, i requires 0 <= i < |out| => Some(out[i].packet))
      && w'.rxSeq == SendAll(suite, v, out).0.txSeq % SEQ_MODULUS
  {
    hide SendSpec, HandleSpec, SendAll, HandleAll;
    var schedule: seq<nat> := seq(|out|, i => i);
    ScheduleDelivered(suite, v, out, w, schedule, arrivals);
    SentFrameDelivered(suite, v, out, 0, w, Addr("", 0), 0.0);
  }

  /** After any handshake run that left both ends with a cipher, everything one end sends is what the other reads. */
  lemma {:induction false} HandshakeThenData(cfg: Config, events: seq<Event>, x: Side,
                          v: TunnelView, out: seq<Outgoing>, w: TunnelView, schedule: seq<nat>, arrivals: seq<Arrival>)
    requires cfg.suite.Lawful() && v.CanSend() && Sendable(v, out)
    requires v.cipher.Some? && v.cipher == Exec(cfg, events).Of(x).cipher
    requires w.cipher.Some? && w.cipher == Exec(cfg, events).Of(x.Peer()).cipher
    requires Delivers(SendAll(cfg.suite, v, out).1, schedule, arrivals)
    ensures forall j :: 0 <= j < |schedule| ==> HandleAll(cfg.suite, w, arrivals).1[j] == Some(out[schedule[j]].packet)
  {
    hide SendSpec, HandleSpec, SendAll, HandleAll;
    KeysAgree(cfg, events);
    ScheduleDelivered(cfg.suite, v, out, w, schedule, arrivals);
  }

  /** With the cipher on the sending side only, the receiver hands up nonce and ciphertext, never the packet. */
  lemma {:induction false} OneSidedCipherCorrupts(suite: Suite, v: TunnelView, out: Outgoing, w: TunnelView,
                                                  addr: Addr, now: real)
    requires suite.Lawful() && v.CanSend() && v.cipher.Some? && w.cipher.None?
    requires |out.packet| <= v.MaxPacket() && |out.nonce| == NONCE_LENGTH
    ensures var o := SendSpec(suite, v, out.packet, out.nonce).1;
      && o.Wire?
      && var got := HandleSpec(suite, w, o.data, addr, now).packet;
         && got.Some? && got.value != out.packet
         && |got.value| == NONCE_LENGTH + |out.packet| && got.value[..NONCE_LENGTH] == out.nonce
  {
    hide UnpackFrame;
    DecryptEncrypted(suite, v.cipher.value, out.nonce, out.packet);
    var (ct, tag) := Encrypt(suite, v.cipher.value, out.nonce, out.packet);
    UnpackPacked(FRAME_DATA, ct, v.txSeq + 1, Some(tag), []);
    var frame := SendSpec(suite, v, out.packet, out.nonce).1;
    assert frame.data + [] == frame.data;
  }

  /** Nor does a receiver with a cipher ever get the packet of a sender without one. */
  lemma {:induction false} PlainSenderCorrupts(suite: Suite, v: TunnelView, out: Outgoing, w: TunnelView,
                                               addr: Addr, now: real)
    requires suite.Lawful() && v.CanSend() && v.cipher.None? && w.cipher.Some?
    requires |out.packet| <= v.MaxPacket()
    ensures var o := SendSpec(suite, v, out.packet, out.nonce).1;
      o.Wire? && HandleSpec(suite, w, o.data, addr, now).packet != Some(out.packet)
  {
    hide UnpackFrame;
    UnpackPacked(FRAME_DATA, out.packet, v.txSeq + 1, None, []);
    var frame := SendSpec(suite, v, out.packet, out.nonce).1;
    assert frame.data + [] == frame.data;
  }

  /** After any handshake run, a packet sent by one end is what the other end hands up if and only if both ends came out
      with a cipher or neither did. */
  lemma {:induction false} DeliversExactly(cfg: Config, events: seq<Event>, x: Side, v: TunnelView, out: Outgoing,
                                           w: TunnelView, addr: Addr, now: real)
    requires cfg.suite.Lawful() && v.CanSend() && |out.packet| <= v.MaxPacket() && |out.nonce| == NONCE_LENGTH
    requires v.cipher == Exec(cfg, events).Of(x).cipher && w.cipher == Exec(cfg, events).Of(x.Peer()).cipher
    ensures var o := SendSpec(cfg.suite, v, out.packet, out.nonce).1;
      && o.Wire?
      && (HandleSpec(cfg.suite, w, o.data, addr, now).packet == Some(out.packet) <==>
            (v.cipher.Some? <==> w.cipher.Some?))
  {
    hide SendSpec, HandleSpec, Exec;
    KeysAgree(cfg, events);
    if v.cipher.Some? && w.cipher.None? {
      OneSidedCipherCorrupts(cfg.suite, v, out, w, addr, now);
    } else if v.cipher.None? && w.cipher.Some? {
      PlainSenderCorrupts(cfg.suite, v, out, w, addr, now);
    } else {
      OneDelivered(cfg.suite, v, out, w, addr, now);
    }
  }
}
