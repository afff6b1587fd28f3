/** WebSocket frame reading, writing and relaying (proxy/websocket.py), against the frame format of
    sections 5.2 and 5.3 of RFC 6455. */
module WebSocket {
  import opened Bytes

  const OP_CLOSE := 8
  const OP_PING := 9
  const OP_PONG := 10

  /** What the relay keeps of a frame: the four opcode bits and the unmasked payload. */
  datatype Frame = Frame(opcode: nat, payload: bytes)

  /** What a frame that `_send_frame` can write looks like: four opcode bits and a length of at most eight bytes. */
  ghost predicate Sendable(f: Frame) { f.opcode < 16 && |f.payload| < Pow256(8) }

  // ---- Reading -----------------------------------------------------------------------

  /** `Need`: the stream holds less than a whole frame; `TooLarge`: the declared length exceeds the limit. */
  datatype ReadResult = Need | TooLarge | Got(frame: Frame, consumed: nat)

  function Masked(payload: bytes, key: bytes): (r: bytes)
    requires |key| == 4
    ensures |r| == |payload|
  {
    seq(|payload|, i requires 0 <= i < |payload| => XorByte(payload[i], key[i % 4]))
  }

  /** Every byte of the payload is combined bit by bit with the key byte of its position modulo four. */
  lemma {:induction false} MaskBits(payload: bytes, key: bytes, i: nat, j: nat)
    requires |key| == 4 && i < |payload| && j < 8
    ensures Bit(Masked(payload, key)[i], j) <==> (Bit(payload[i], j) != Bit(key[i % 4], j))
  {
    hide XorByte, Bit;
    XorByteBits(payload[i], key[i % 4], j);
  }

  lemma {:induction false} MaskUndoes(payload: bytes, key: bytes)
    requires |key| == 4
    ensures Masked(Masked(payload, key), key) == payload
  {
    hide XorByte;
    forall i | 0 <= i < |payload| ensures Masked(Masked(payload, key), key)[i] == payload[i] {
      XorByteUndoes(payload[i], key[i % 4]);
    }
  }

  /** The declared payload length and where it ends, once its bytes are there. */
  function LengthField(s: bytes): (r: Option<(nat, nat)>)
    requires |s| >= 2
    ensures r.Some? ==> 2 <= r.value.1 <= |s| && r.value.0 < Pow256(8)
  {
    var code := s[1] % 128;
    if code < 126 then Some((code, 2))
    else if code == 126 then (if |s| < 4 then None else Some((FromBigEndian(s[2..4]), 4)))
    else if |s| < 10 then None else Some((FromBigEndian(s[2..10]), 10))
  }

  /** `_read_frame` on the bytes received so far. */
  function ReadFrame(limit: nat, s: bytes): (r: ReadResult)
    ensures r.Got? ==> 2 <= r.consumed <= |s| && |r.frame.payload| <= limit && Sendable(r.frame)
  {
    if |s| < 2 || LengthField(s).None? then Need
    else
      var (n, at) := LengthField(s).value;
      var start := if s[1] >= 128 then at + 4 else at;
      if n > limit then TooLarge
      else if start + n > |s| then Need
      else
        var raw := s[start..start + n];
        Got(Frame(s[0] % 16, if s[1] >= 128 then Masked(raw, s[at..start]) else raw), start + n)
  }

  /** A frame once readable stays the same frame: bytes behind it do not matter. */
  lemma {:induction false} ReadStable(limit: nat, s: bytes, k: nat)
    requires k <= |s| && ReadFrame(limit, s).Got?
    ensures ReadFrame(limit, s[..k]) == if ReadFrame(limit, s).consumed <= k then ReadFrame(limit, s) else Need
  {
    hide Masked, FromBigEndian;
    var c := ReadFrame(limit, s).consumed;
    if |s[..k]| >= 2 && LengthField(s[..k]).Some? {
      if k >= 4 { SliceOfPrefix(s, k, 2, 4); }
      if k >= 10 { SliceOfPrefix(s, k, 2, 10); }
      var (n, at) := LengthField(s).value;
      var start := if s[1] >= 128 then at + 4 else at;
      if c <= k {
        SliceOfPrefix(s, k, start, c);
        SliceOfPrefix(s, k, at, start);
      }
    }
  }

  // ---- The frame format -----------------------------------------------------------------

  datatype LengthForm = Short | Medium | Long

  /** A frame on the wire: first byte (FIN, reserved bits, opcode), a length form that fits, an optional mask. */
  datatype Wire = Wire(first: byte, form: LengthForm, mask: Option<bytes>, payload: bytes) {
    ghost predicate Valid() {
      && |payload| < (match form case Short => 126 case Medium => Pow256(2) case Long => Pow256(8))
      && (mask.Some? ==> |mask.value| == 4)
    }

    function Header(): (h: bytes)
      requires Valid()
      ensures |h| == match form case Short => 2 case Medium => 4 case Long => 10
    {
      var bit := if mask.Some? then 128 else 0;
      match form
      case Short => [first, bit + |payload|]
      case Medium => [first, bit + 126] + BigEndian(2, |payload|)
      case Long => [first, bit + 127] + BigEndian(8, |payload|)
    }

    function Encode(): (w: bytes)
      requires Valid()
    {
      Header() + if mask.Some? then mask.value + Masked(payload, mask.value) else payload
    }

    function Content(): Frame { Frame(first % 16, payload) }
  }

  lemma {:induction false} HeaderLength(w: Wire, rest: bytes)
    requires w.Valid()
    ensures var s := w.Header() + rest;
      && |s| >= 2 && s[0] == w.first && (s[1] >= 128 <==> w.mask.Some?)
      && LengthField(s) == Some((|w.payload|, |w.Header()|))
  {
    hide BigEndian, FromBigEndian, Pow256;
    var s := w.Header() + rest;
    match w.form {
      case Short =>
      case Medium => assert s[2..4] == BigEndian(2, |w.payload|);
      case Long => assert s[2..10] == BigEndian(8, |w.payload|);
    }
  }

  /** Whatever its length form and masking key, a valid frame within the limit is read back with its opcode bits and
      its unmasked payload, and exactly its own bytes are consumed. */
  lemma {:induction false} ReadsEncoded(limit: nat, w: Wire, rest: bytes)
    requires w.Valid() && |w.payload| <= limit
    ensures ReadFrame(limit, w.Encode() + rest) == Got(w.Content(), |w.Encode()|)
  {
    hide Masked, LengthField, Wire.Header, Wire.Encode;
    var s := w.Encode() + rest;
    EncodedParts(w, rest);
    if w.mask.Some? { MaskUndoes(w.payload, w.mask.value); }
  }

  /** One over the limit is refused as soon as its length is there, and nothing of it is returned. */
  lemma {:induction false} RefusesOverLimit(limit: nat, w: Wire, rest: bytes)
    requires w.Valid() && |w.payload| > limit
    ensures ReadFrame(limit, w.Header() + rest) == TooLarge
  {
    hide LengthField, Wire.Header;
    HeaderLength(w, rest);
  }

  lemma {:induction false} EncodedParts(w: Wire, rest: bytes)
    requires w.Valid()
    ensures var s := w.Encode() + rest;
      var at, n := |w.Header()|, |w.payload|;
      && |s| >= 2 && s[0] == w.first && (s[1] >= 128 <==> w.mask.Some?)
      && LengthField(s) == Some((n, at))
      && (w.mask.Some? ==>
            && |w.Encode()| == at + 4 + n && s[at..at + 4] == w.mask.value
            && s[at + 4..at + 4 + n] == Masked(w.payload, w.mask.value))
      && (w.mask.None? ==> |w.Encode()| == at + n && s[at..at + n] == w.payload)
  {
    hide Masked, LengthField, Wire.Header;
    var tail := if w.mask.Some? then w.mask.value + Masked(w.payload, w.mask.value) else w.payload;
    assert w.Encode() + rest == w.Header() + (tail + rest);
    HeaderLength(w, tail + rest);
  }

  // ---- Writing ------------------------------------------------------------------------------

  function MinimalForm(n: nat): LengthForm { if n < 126 then Short else if n < 65536 then Medium else Long }

  /** The frame `_send_frame` writes: FIN set, no mask, the shortest length form. */
  function Outgoing(f: Frame): (w: Wire)
    requires f.opcode < 16
  {
    Wire(128 + f.opcode, MinimalForm(|f.payload|), None, f.payload)
  }

  lemma {:induction false} OutgoingValid(f: Frame)
    requires Sendable(f)
    ensures Outgoing(f).Valid() && Outgoing(f).Content() == f
  {
    assert Pow256(2) == 65536;
  }

  /** No valid encoding of the same content has a shorter length field. */
  lemma {:induction false} OutgoingIsMinimal(f: Frame, w: Wire)
    requires Sendable(f) && w.Valid() && w.Content() == f && Outgoing(f).Valid()
    ensures |Outgoing(f).Header()| <= |w.Header()| && |Outgoing(f).Encode()| <= |w.Encode()|
  {
    assert Pow256(2) == 65536;
  }

  /** `_send_frame`: the byte string it builds piece by piece. */
  method SendFrame(opcode: nat, payload: bytes) returns (frame: bytes)
    requires |payload| < Pow256(8)
    ensures frame == EncodeOut(Frame(opcode % 16, payload))
  {
    OutgoingValid(Frame(opcode % 16, payload));
    assert Pow256(2) == 65536;
    hide BigEndian, Pow256;
    frame := [128 + opcode % 16];
    var n := |payload|;
    if n < 126 {
      frame := frame + [n];
    } else if n < 65536 {
      frame := frame + [126];
      frame := frame + BigEndian(2, n);
    } else {
      frame := frame + [127];
      frame := frame + BigEndian(8, n);
    }
    if payload != [] { frame := frame + payload; } else { assert frame + payload == frame; }
  }

  // ---- Streams of frames -------------------------------------------------------------------------

  ghost predicate AllSendable(fs: seq<Frame>) { forall f :: f in fs ==> Sendable(f) }

  function Bytestream(fs: seq<Frame>): (r: bytes)
    requires AllSendable(fs)
  {
    if fs == [] then []
    else
      OutgoingValid(fs[|fs| - 1]);
      Bytestream(fs[..|fs| - 1]) + Outgoing(fs[|fs| - 1]).Encode()
  }

  /** Reading frames one after the other until no whole frame is left: the frames and the unread bytes. */
  function ReadAll(limit: nat, s: bytes): (r: (seq<Frame>, bytes))
    decreases |s|
  {
    match ReadFrame(limit, s)
    case Got(f, n) => var (fs, rest) := ReadAll(limit, s[n..]); ([f] + fs, rest)
    case _ => ([], s)
  }

  /** `taken` is exactly the bytes of the frames `fs`, read one by one. */
  ghost predicate Takes(limit: nat, taken: bytes, fs: seq<Frame>) {
    ReadAll(limit, taken) == (fs, [])
  }

  lemma {:induction false} ReadAllThen(limit: nat, taken: bytes, fs: seq<Frame>, more: bytes)
    requires Takes(limit, taken, fs)
    ensures ReadAll(limit, taken + more) == (fs + ReadAll(limit, more).0, ReadAll(limit, more).1)
    decreases |taken|
  {
    hide ReadFrame;
    if taken == [] {
      assert taken + more == more && fs + ReadAll(limit, more).0 == ReadAll(limit, more).0 by { NothingToRead(limit); }
    } else {
      var r := ReadFrame(limit, taken);
      assert r.Got?;
      var s := taken + more;
      StaysReadable(limit, taken, more);
      assert s[r.consumed..] == taken[r.consumed..] + more;
      var tail := ReadAll(limit, taken[r.consumed..]).0;
      assert fs == [r.frame] + tail;
      ReadAllThen(limit, taken[r.consumed..], tail, more);
      assert [r.frame] + (tail + ReadAll(limit, more).0) == fs + ReadAll(limit, more).0;
    }
  }

  lemma {:induction false} NothingToRead(limit: nat)
    ensures ReadFrame(limit, []) == Need && ReadAll(limit, []) == ([], [])
  {
  }

  lemma {:induction false} StaysReadable(limit: nat, s: bytes, more: bytes)
    requires ReadFrame(limit, s).Got?
    ensures ReadFrame(limit, s + more) == ReadFrame(limit, s)
  {
    hide Masked, FromBigEndian;
    var t := s + more;
    var (n, at) := LengthField(s).value;
    var start := if s[1] >= 128 then at + 4 else at;
    if |s| >= 4 { SliceOfConcat(s, more, 2, 4); }
    if |s| >= 10 { SliceOfConcat(s, more, 2, 10); }
    SliceOfConcat(s, more, start, start + n);
    SliceOfConcat(s, more, at, start);
  }

  lemma {:induction false} TakesOne(limit: nat, taken: bytes, fs: seq<Frame>, s: bytes)
    requires Takes(limit, taken, fs) && ReadFrame(limit, s).Got?
    ensures Takes(limit, taken + s[..ReadFrame(limit, s).consumed], fs + [ReadFrame(limit, s).frame])
  {
    hide ReadFrame;
    var Got(f, n) := ReadFrame(limit, s);
    ReadStable(limit, s, n);
    NothingToRead(limit);
    assert s[..n][n..] == [];
    assert ReadAll(limit, s[..n]) == ([f] + ReadAll(limit, []).0, []);
    assert [f] + ReadAll(limit, []).0 == [f];
    ReadAllThen(limit, taken, fs, s[..n]);
  }

  /** What was written reads back, frame for frame, as what was meant: the written bytes are whole frames. */
  lemma {:induction false} WrittenReadsBack(fs: seq<Frame>)
    requires AllSendable(fs)
    ensures Takes(Pow256(8), Bytestream(fs), fs)
  {
    hide ReadFrame, Pow256, Outgoing, Wire.Encode, Wire.Valid;
    if fs == [] {
      NothingToRead(Pow256(8));
    } else {
      var front, last := fs[..|fs| - 1], fs[|fs| - 1];
      WrittenReadsBack(front);
      OutgoingValid(last);
      var w := Outgoing(last);
      ReadsEncoded(Pow256(8), w, []);
      assert w.Encode() + [] == w.Encode();
      TakesOne(Pow256(8), Bytestream(front), front, w.Encode());
      assert w.Encode()[..|w.Encode()|] == w.Encode();
      assert front + [last] == fs;
    }
  }

  // ---- The relay ---------------------------------------------------------------------------------------

  predicate IsData(f: Frame) { f.opcode < 8 || f.opcode > 10 }

  /** The data frames of a sequence, in order (text, binary, continuation and the reserved opcodes). */
  function DataOf(fs: seq<Frame>): (r: seq<Frame>)
  {
    if fs == [] then []
    else DataOf(fs[..|fs| - 1]) + if IsData(fs[|fs| - 1]) then [fs[|fs| - 1]] else []
  }

  /** What the relay sends on for a frame it reads: a ping leaves as a pong. */
  function Forwarded(f: Frame): Frame { if f.opcode == OP_PING then f.(opcode := OP_PONG) else f }

  /** FIN set, reserved bits clear, and not a ping. */
  predicate KeepsFirst(w: Wire) { 128 <= w.first < 144 && w.first != 128 + OP_PING }

  /** What the relay writes for a frame has the frame's first byte if and only if FIN was set, the reserved bits were
      clear and it was no ping: a fragment leaves as a final frame, a ping as a pong. It is the same bytes if and only
      if moreover the frame was unmasked and its length in the shortest form. */
  lemma {:induction false} FrameKeptExactly(w: Wire)
    requires w.Valid()
    ensures Sendable(Forwarded(w.Content()))
    ensures Outgoing(Forwarded(w.Content())).first == w.first <==> KeepsFirst(w)
    ensures EncodeOut(Forwarded(w.Content())) == w.Encode() <==>
      KeepsFirst(w) && w.mask.None? && w.form == MinimalForm(|w.payload|)
  {
    var f := Forwarded(w.Content());
    ValidIsSendable(w);
    OutgoingValid(f);
    var o := Outgoing(f);
    EncodedParts(w, []);
    EncodedParts(o, []);
    hide Wire.Encode, LengthField;
    assert o.Encode() + [] == o.Encode() && w.Encode() + [] == w.Encode();
    if o == w { assert EncodeOut(f) == w.Encode(); }
  }

  lemma {:induction false} ValidIsSendable(w: Wire)
    requires w.Valid()
    ensures Sendable(w.Content()) && Sendable(Forwarded(w.Content()))
  {
    assert Pow256(2) == 65536;
    assert Pow256(8) == Pow256(2) * Pow256(2) * Pow256(2) * Pow256(2) by { PowersOf256(); }
  }

  lemma {:induction false} PowersOf256()
    ensures Pow256(8) == Pow256(2) * Pow256(2) * Pow256(2) * Pow256(2)
  {
    assert Pow256(2) == 65536;
    assert Pow256(4) == 65536 * 65536;
    assert Pow256(6) == 65536 * Pow256(4);
    assert Pow256(8) == 65536 * Pow256(6);
  }

  /** One direction of the relay: bytes received and not yet read, frames read, bytes written to the other side. */
  datatype Pipe = Pipe(unread: bytes, stopped: bool, read: seq<Frame>, out: bytes)

  datatype Event =
    | Arrive(data: bytes)
    | Turn
    | Halt
    | Inject(control: Frame)

  /** `Turn` is one round of `_relay_one_way`; `Inject` is the ping loop or the final close frame; `Halt` is any
      end of the task (time-out, lost connection, or the other direction's `done`). */
  function Step(limit: nat, p: Pipe, e: Event): (q: Pipe)
  {
    match e
    case Arrive(data) => p.(unread := p.unread + data)
    case Halt => p.(stopped := true)
    case Inject(f) => if Inserted(f) then p.(out := p.out + EncodeOut(f)) else p
    case Turn =>
      if p.stopped then p
      else
        match ReadFrame(limit, p.unread)
        case Need => p
        case TooLarge => p.(stopped := true)
        case Got(f, n) => Pipe(p.unread[n..], f.opcode == OP_CLOSE, p.read + [f], p.out + EncodeOut(Forwarded(f)))
  }

  /** The only frames the relay itself originates. */
  predicate Inserted(f: Frame) {
    (f.opcode == OP_PING && f.payload == []) || (f.opcode == OP_CLOSE && |f.payload| < Pow256(8))
  }

  function EncodeOut(f: Frame): (r: bytes)
    requires f.opcode < 16 && |f.payload| < Pow256(8)
  {
    OutgoingValid(f);
    Outgoing(f).Encode()
  }

  const START := Pipe([], false, [], [])

  function Turns(limit: nat, p: Pipe, n: nat): (q: Pipe)
  {
    if n == 0 then p else Step(limit, Turns(limit, p, n - 1), Turn)
  }

  /** One round of the loop of `_relay_one_way`. */
  method RelayTurn(limit: nat, p: Pipe) returns (q: Pipe)
    ensures q == Step(limit, p, Turn)
  {
    hide ReadFrame, Pow256, EncodeOut;
    if p.stopped { return p; }
    var r := ReadFrame(limit, p.unread);
    if r.Need? { return p; }
    if r.TooLarge? { return p.(stopped := true); }
    var f := r.frame;
    var frame;
    if f.opcode == OP_CLOSE {
      frame := SendFrame(OP_CLOSE, f.payload);
    } else if f.opcode == OP_PING {
      frame := SendFrame(OP_PONG, f.payload);
    } else if f.opcode == OP_PONG {
      frame := SendFrame(OP_PONG, f.payload);
    } else {
      frame := SendFrame(f.opcode, f.payload);
    }
    return Pipe(p.unread[r.consumed..], f.opcode == OP_CLOSE, p.read + [f], p.out + frame);
  }

  /** The direction has not stopped, and the stream holds another frame, if only an oversized one. */
  predicate GoesOn(limit: nat, p: Pipe) { !p.stopped && !ReadFrame(limit, p.unread).Need? }

  /** The first `n` rounds from `start` all take place. */
  ghost predicate Rounds(limit: nat, start: Pipe, done: nat -> bool, n: nat) {
    forall i: nat :: i < n ==> !done(i) && GoesOn(limit, Turns(limit, start, i))
  }

  lemma {:induction false} OneMoreRound(limit: nat, start: Pipe, done: nat -> bool, n: nat)
    requires Rounds(limit, start, done, n) && !done(n) && GoesOn(limit, Turns(limit, start, n))
    ensures Rounds(limit, start, done, n + 1)
  {
    hide Turns, GoesOn;
  }

  lemma {:induction false} NextTurn(limit: nat, start: Pipe, n: nat)
    ensures Turns(limit, start, n + 1) == Step(limit, Turns(limit, start, n), Turn)
  {
    hide Step;
  }

  lemma {:induction false} TurnMovesOn(limit: nat, p: Pipe)
    requires GoesOn(limit, p)
    ensures var q := Step(limit, p, Turn);
      |q.unread| < |p.unread| || (|q.unread| == |p.unread| && q.stopped && !p.stopped)
  {
    hide ReadFrame, EncodeOut;
  }

  /** `_relay_one_way` over a stream that ends after `input`, where `done(i)` says whether the shared event is set when
      round `i` begins: rounds until the event, a close frame, an oversized frame or the end of the stream stops it. */
  method RelayOneWay(limit: nat, input: bytes, done: nat -> bool) returns (p: Pipe, ghost n: nat)
    ensures p == Turns(limit, START.(unread := input), n)
    ensures Rounds(limit, START.(unread := input), done, n) && (done(n) || !GoesOn(limit, p))
  {
    ghost var start := START.(unread := input);
    assert Turns(limit, start, 0) == start;
    assert Rounds(limit, start, done, 0);
    hide ReadFrame, Pow256, EncodeOut, Step, Turns, Rounds;
    var i := 0;
    p, n := START.(unread := input), 0;
    while !done(i) && !p.stopped && !ReadFrame(limit, p.unread).Need?
      invariant i == n && p == Turns(limit, start, n) && Rounds(limit, start, done, n)
      decreases |p.unread|, !p.stopped
    {
      OneMoreRound(limit, start, done, n);
      NextTurn(limit, start, n);
      TurnMovesOn(limit, p);
      p := RelayTurn(limit, p);
      i, n := i + 1, n + 1;
    }
  }

  function Exec(limit: nat, events: seq<Event>): (p: Pipe)
  {
    if events == [] then START else Step(limit, Exec(limit, events[..|events| - 1]), events[|events| - 1])
  }

  function Arrived(events: seq<Event>): (r: bytes)
  {
    if events == [] then []
    else Arrived(events[..|events| - 1]) + if events[|events| - 1].Arrive? then events[|events| - 1].data else []
  }

  /** The frames a run wrote, in order. */
  function Sent(limit: nat, events: seq<Event>): (r: seq<Frame>)
  {
    if events == [] then []
    else
      var prior, e := events[..|events| - 1], events[|events| - 1];
      Sent(limit, prior) + SentBy(limit, Exec(limit, prior), e)
  }

  function SentBy(limit: nat, p: Pipe, e: Event): (r: seq<Frame>)
  {
    if e.Inject? && Inserted(e.control) then [e.control]
    else if e.Turn? && !p.stopped && ReadFrame(limit, p.unread).Got? then [Forwarded(ReadFrame(limit, p.unread).frame)]
    else []
  }

  lemma {:induction false} DataOfAppend(fs: seq<Frame>, f: Frame)
    ensures DataOf(fs + [f]) == DataOf(fs) + if IsData(f) then [f] else []
  {
    assert (fs + [f])[..|fs|] == fs;
  }

  lemma {:induction false} BytestreamAppend(fs: seq<Frame>, f: Frame)
    requires AllSendable(fs) && Sendable(f)
    ensures AllSendable(fs + [f])
    ensures Bytestream(fs + [f]) == Bytestream(fs) + EncodeOut(f)
  {
    assert (fs + [f])[..|fs|] == fs;
  }

  /** What one pipe keeps: `taken` are the bytes of the frames read so far, `sent` the frames written so far. */
  ghost predicate PipeOk(limit: nat, p: Pipe, taken: bytes, sent: seq<Frame>) {
    && Takes(limit, taken, p.read)
    && AllSendable(sent) && p.out == Bytestream(sent)
    && DataOf(sent) == DataOf(p.read)
  }

  lemma {:induction false} StepOk(limit: nat, p: Pipe, taken: bytes, sent: seq<Frame>, e: Event) returns (taken': bytes)
    requires PipeOk(limit, p, taken, sent)
    ensures PipeOk(limit, Step(limit, p, e), taken', sent + SentBy(limit, p, e))
    ensures taken' + Step(limit, p, e).unread == taken + p.unread + if e.Arrive? then e.data else []
  {
    hide ReadFrame, Bytestream, DataOf, Takes, Pow256, EncodeOut;
    taken' := taken;
    match e {
      case Inject(f) =>
        if Inserted(f) {
          InsertedSendable(f);
          BytestreamAppend(sent, f);
          DataOfAppend(sent, f);
        }
      case Turn =>
        var r := ReadFrame(limit, p.unread);
        if !p.stopped && r.Got? {
          TakesOne(limit, taken, p.read, p.unread);
          taken' := taken + p.unread[..r.consumed];
          assert p.unread == p.unread[..r.consumed] + p.unread[r.consumed..];
          var g := Forwarded(r.frame);
          BytestreamAppend(sent, g);
          DataOfAppend(sent, g);
          DataOfAppend(p.read, r.frame);
        }
      case _ =>
    }
    if SentBy(limit, p, e) == [] { assert sent + [] == sent; }
  }

  lemma {:induction false} InsertedSendable(f: Frame)
    requires Inserted(f)
    ensures Sendable(f) && !IsData(f)
  {
    assert Pow256(8) > 0;
  }

  lemma {:induction false} RunOk(limit: nat, events: seq<Event>) returns (taken: bytes)
    ensures PipeOk(limit, Exec(limit, events), taken, Sent(limit, events))
    ensures taken + Exec(limit, events).unread == Arrived(events)
  {
    hide ReadFrame, Pow256, Step, PipeOk, SentBy;
    if events == [] {
      taken := [];
      StartOk(limit);
    } else {
      var prior, e := events[..|events| - 1], events[|events| - 1];
      var before := RunOk(limit, prior);
      taken := StepOk(limit, Exec(limit, prior), before, Sent(limit, prior), e);
    }
  }

  lemma {:induction false} StartOk(limit: nat)
    ensures PipeOk(limit, START, [], [])
  {
    NothingToRead(limit);
  }

  /** At every point of every run, with pings and close frames interleaved: what was written is whole frames of minimal
      length that read back as the frames sent, and its data frames are the data frames read, in order. */
  lemma {:induction false} RelayWritesWholeFrames(limit: nat, events: seq<Event>)
    ensures var p := Exec(limit, events);
      var sent := Sent(limit, events);
      && AllSendable(sent) && p.out == Bytestream(sent)
      && Takes(Pow256(8), p.out, sent)
      && DataOf(sent) == DataOf(p.read)
  {
    hide ReadFrame, Exec, Sent, Bytestream, DataOf, Pow256, Takes;
    var _ := RunOk(limit, events);
    WrittenReadsBack(Sent(limit, events));
  }

  /** A close frame is the last frame a direction ever reads. */
  lemma {:induction false} CloseIsLast(limit: nat, events: seq<Event>)
    ensures var p := Exec(limit, events);
      && (forall i :: 0 <= i < |p.read| - 1 ==> p.read[i].opcode != OP_CLOSE)
      && (p.read != [] && p.read[|p.read| - 1].opcode == OP_CLOSE ==> p.stopped)
  {
    hide Step, ReadFrame, EncodeOut;
    if events != [] {
      var prior := events[..|events| - 1];
      CloseIsLast(limit, prior);
      ReadGrows(limit, Exec(limit, prior), events[|events| - 1]);
    }
  }

  /** A step reads at most one frame, none once stopped, and a close frame stops it; nothing starts it again. */
  lemma {:induction false} ReadGrows(limit: nat, p: Pipe, e: Event)
    ensures var q := Step(limit, p, e);
      && (p.stopped ==> q.stopped && q.read == p.read)
      && (q.read == p.read || exists f :: q.read == p.read + [f] && (f.opcode == OP_CLOSE ==> q.stopped))
  {
    hide ReadFrame, EncodeOut;
  }

  /** Once halted, a direction reads nothing more, whatever arrives and however often its loop is tried. */
  lemma {:induction false} HaltIsFinal(limit: nat, events: seq<Event>, more: seq<Event>)
    ensures Exec(limit, events + [Halt] + more).stopped
    ensures Exec(limit, events + [Halt] + more).read == Exec(limit, events).read
  {
    hide Step, ReadFrame, EncodeOut;
    var all := events + [Halt] + more;
    if more == [] {
      assert all == events + [Halt] && all[..|all| - 1] == events;
      HaltStops(limit, Exec(limit, events));
    } else {
      var front := more[..|more| - 1];
      assert all[..|all| - 1] == events + [Halt] + front;
      HaltIsFinal(limit, events, front);
      ReadGrows(limit, Exec(limit, events + [Halt] + front), all[|all| - 1]);
    }
  }

  lemma {:induction false} HaltStops(limit: nat, p: Pipe)
    ensures Step(limit, p, Halt) == p.(stopped := true)
  {
    hide ReadFrame, EncodeOut;
  }

  /** The frames written for frames read, without the pings and close frames the relay inserts. */
  function Relayed(limit: nat, events: seq<Event>): (r: seq<Frame>)
  {
    if events == [] then []
    else
      var prior, e := events[..|events| - 1], events[|events| - 1];
      Relayed(limit, prior) + if e.Turn? then SentBy(limit, Exec(limit, prior), e) else []
  }

  lemma {:induction false} RelaysWhatItReads(limit: nat, events: seq<Event>)
    ensures var read := Exec(limit, events).read;
      |Relayed(limit, events)| == |read| &&
      forall i :: 0 <= i < |read| ==> Relayed(limit, events)[i] == Forwarded(read[i])
  {
    hide ReadFrame, EncodeOut;
    if events != [] { RelaysWhatItReads(limit, events[..|events| - 1]); }
  }

  // ---- Input made of valid frames ------------------------------------------------------------------------

  ghost predicate ValidInput(limit: nat, ws: seq<Wire>) { forall w :: w in ws ==> w.Valid() && |w.payload| <= limit }

  function EncodeAll(ws: seq<Wire>): (r: bytes)
    requires forall w :: w in ws ==> w.Valid()
  {
    if ws == [] then [] else ws[0].Encode() + EncodeAll(ws[1..])
  }

  function Contents(ws: seq<Wire>): (r: seq<Frame>) { seq(|ws|, i requires 0 <= i < |ws| => ws[i].Content()) }

  /** Reading any prefix of an encoded input yields a prefix of its frames. */
  lemma {:induction false} ReadsPrefix(limit: nat, ws: seq<Wire>, s: bytes)
    requires ValidInput(limit, ws) && s <= EncodeAll(ws)
    ensures ReadAll(limit, s).0 <= Contents(ws)
    decreases |ws|
  {
    hide ReadFrame, Wire.Encode, Wire.Valid;
    if ws == [] {
      NothingToRead(limit);
    } else {
      var w, rest := ws[0], ws[1..];
      var all, n := EncodeAll(ws), |w.Encode()|;
      ReadsEncoded(limit, w, EncodeAll(rest));
      assert s == all[..|s|];
      ReadStable(limit, all, |s|);
      if n <= |s| {
        assert s[n..] <= EncodeAll(rest);
        ReadsPrefix(limit, rest, s[n..]);
        assert Contents(ws) == [w.Content()] + Contents(rest);
      }
    }
  }

  /** If what arrived is a prefix of a stream of valid frames (any masks, any length forms), the data frames written to
      the other side are those of a prefix of that stream, with the same opcodes and the unmasked payloads. */
  lemma {:induction false} RelayForwardsPrefix(limit: nat, events: seq<Event>, ws: seq<Wire>)
    requires ValidInput(limit, ws) && Arrived(events) <= EncodeAll(ws)
    ensures exists k :: 0 <= k <= |ws| && DataOf(Sent(limit, events)) == DataOf(Contents(ws)[..k])
  {
    hide ReadFrame, Exec, Sent, Bytestream, DataOf, Pow256, EncodeAll, Arrived, ReadAll;
    var p := Exec(limit, events);
    var taken := RunOk(limit, events);
    ReadAllThen(limit, taken, p.read, p.unread);
    ReadsPrefix(limit, ws, Arrived(events));
    assert p.read <= Contents(ws);
    assert p.read == Contents(ws)[..|p.read|];
  }

  /** Over every run on a stream of valid frames, the frame written for each frame read keeps its first byte, or all its
      bytes, exactly under the conditions of `FrameKeptExactly`. */
  lemma {:induction false} RunKeepsExactly(limit: nat, events: seq<Event>, ws: seq<Wire>)
    requires ValidInput(limit, ws) && Arrived(events) <= EncodeAll(ws)
    ensures var relayed := Relayed(limit, events);
      && |relayed| <= |ws|
      && forall i :: 0 <= i < |relayed| ==>
           && Sendable(relayed[i])
           && (Outgoing(relayed[i]).first == ws[i].first <==> KeepsFirst(ws[i]))
           && (EncodeOut(relayed[i]) == ws[i].Encode() <==>
                 KeepsFirst(ws[i]) && ws[i].mask.None? && ws[i].form == MinimalForm(|ws[i].payload|))
  {
    hide ReadFrame, Exec, Sent, Bytestream, DataOf, Pow256, EncodeAll, Arrived, ReadAll;
    hide Relayed, EncodeOut, Wire.Encode;
    var p := Exec(limit, events);
    var taken := RunOk(limit, events);
    ReadAllThen(limit, taken, p.read, p.unread);
    ReadsPrefix(limit, ws, Arrived(events));
    assert p.read <= Contents(ws);
    RelaysWhatItReads(limit, events);
    forall i | 0 <= i < |p.read|
      ensures Relayed(limit, events)[i] == Forwarded(ws[i].Content()) && ws[i].Valid()
    {
      assert p.read[i] == Contents(ws)[i] && ws[i] in ws;
    }
    forall i | 0 <= i < |p.read| {
      FrameKeptExactly(ws[i]);
    }
  }

  /** A single frame that arrives leaves with another first byte exactly if it does not keep it: the first fragment of a
      text message (1) leaves as a final frame (129), a ping (137) as a pong (138). */
  lemma {:induction false} OneFrameChanges(limit: nat, w: Wire)
    requires w.Valid() && |w.payload| <= limit
    ensures var out := Exec(limit, [Arrive(w.Encode()), Turn]).out;
      && out != [] && (out[0] == w.first <==> KeepsFirst(w))
      && (w.first == 1 ==> out[0] == 129) && (w.first == 137 ==> out[0] == 138)
  {
    hide Exec, EncodeOut, Wire.Encode, Wire.Valid, Pow256;
    OneFrameRun(limit, w);
    FirstByteOut(Forwarded(w.Content()));
    FirstBytes(w.first, w.payload);
  }

  lemma {:induction false} FirstBytes(first: byte, payload: bytes)
    ensures var f := Forwarded(Frame(first % 16, payload));
      && (128 + f.opcode == first <==> 128 <= first < 144 && first != 137)
      && (first == 1 ==> f.opcode == 1) && (first == 137 ==> f.opcode == 10)
  {
  }

  lemma {:induction false} FirstByteOut(f: Frame)
    requires Sendable(f)
    ensures EncodeOut(f) != [] && EncodeOut(f)[0] == 128 + f.opcode
  {
    OutgoingValid(f);
    EncodedParts(Outgoing(f), []);
    assert Outgoing(f).Encode() + [] == Outgoing(f).Encode();
    hide Wire.Encode, LengthField;
  }

  lemma {:induction false} ExecNext(limit: nat, events: seq<Event>, e: Event)
    ensures Exec(limit, events + [e]) == Step(limit, Exec(limit, events), e)
  {
    hide Step;
    assert (events + [e])[..|events|] == events;
  }

  /** A single frame that arrives is read and sent on. */
  lemma {:induction false} OneFrameRun(limit: nat, w: Wire)
    requires w.Valid() && |w.payload| <= limit
    ensures Sendable(Forwarded(w.Content()))
    ensures Exec(limit, [Arrive(w.Encode()), Turn]).out == EncodeOut(Forwarded(w.Content()))
  {
    var data := w.Encode();
    var r0: seq<Event> := [];
    assert Exec(limit, r0) == START;
    hide Exec, Step, EncodeOut, Wire.Encode, ReadFrame;
    ArrivesAndLeaves(limit, w);
    ExecNext(limit, r0, Arrive(data));
    ExecNext(limit, r0 + [Arrive(data)], Turn);
    assert r0 + [Arrive(data)] + [Turn] == [Arrive(data), Turn];
  }

  lemma {:induction false} ArrivesAndLeaves(limit: nat, w: Wire)
    requires w.Valid() && |w.payload| <= limit
    ensures Sendable(Forwarded(w.Content()))
    ensures Step(limit, Step(limit, START, Arrive(w.Encode())), Turn).out == EncodeOut(Forwarded(w.Content()))
  {
    ValidIsSendable(w);
    ReadsEncoded(limit, w, []);
    hide Step, ReadFrame, EncodeOut, Wire.Encode, Forwarded, Wire.Valid, Pow256;
    var data := w.Encode();
    assert data + [] == data;
    ArrivesFirst(limit, data);
    LeavesFirst(limit, data);
  }

  lemma {:induction false} ArrivesFirst(limit: nat, data: bytes)
    ensures Step(limit, START, Arrive(data)) == START.(unread := data)
  {
    assert [] + data == data;
  }

  lemma {:induction false} LeavesFirst(limit: nat, data: bytes)
    requires ReadFrame(limit, data).Got?
    ensures Step(limit, START.(unread := data), Turn).out == EncodeOut(Forwarded(ReadFrame(limit, data).frame))
  {
    hide ReadFrame, EncodeOut, Pow256;
    var out := EncodeOut(Forwarded(ReadFrame(limit, data).frame));
    assert [] + out == out;
  }

  /** The ping loop writes an empty ping, two bytes, behind what was written before. */
  lemma {:induction false} PingIsWritten(limit: nat, events: seq<Event>)
    ensures Exec(limit, events + [Inject(Frame(9, []))]).out == Exec(limit, events).out + [137, 0]
  {
    ExecNext(limit, events, Inject(Frame(9, [])));
    PingBytes();
    hide Exec, ReadFrame, EncodeOut;
  }

  lemma {:induction false} PingBytes()
    ensures Inserted(Frame(9, [])) && Sendable(Frame(9, [])) && EncodeOut(Frame(9, [])) == [137, 0]
  {
    OutgoingValid(Frame(9, []));
  }
}
