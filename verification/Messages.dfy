/** Length-prefixed control messages (common/messages.py) and the loops that read them (server/main.py,
    client/control_channel.py). */
module Messages {
  import opened Bytes

  const MAX_MESSAGE_SIZE := 1048576
  const PREFIX := 4

  /** `payload` stands for the JSON-serialisable dictionary. */
  datatype Message = Message(kind: string, payload: string)

  /** The JSON text codec; None is a decoding error. */
  datatype Codec = Codec(encode: Message -> bytes, decode: bytes -> Option<Message>) {
    ghost predicate Lawful() { forall m :: decode(encode(m)) == Some(m) }
  }

  /** `serialize`; None is MessageTooLargeError. */
  function Serialize(codec: Codec, m: Message): (r: Option<bytes>)
  {
    var data := codec.encode(m);
    assert Pow256(4) > MAX_MESSAGE_SIZE;
    if |data| > MAX_MESSAGE_SIZE then None else Some(BigEndian(PREFIX, |data|) + data)
  }

  datatype Parse = Wait | Oversized | Undecodable | Got(message: Message, rest: bytes)

  /** `parse_stream`. */
  function ParseStream(codec: Codec, data: bytes): (r: Parse)
    ensures r.Got? ==> |r.rest| < |data|
  {
    if |data| < PREFIX then Wait
    else
      var length := FromBigEndian(data[..PREFIX]);
      var total := PREFIX + length;
      if length > MAX_MESSAGE_SIZE then Oversized
      else if |data| < total then Wait
      else
        match codec.decode(data[PREFIX..total])
        case None => Undecodable
        case Some(m) => Got(m, data[total..])
  }

  /** A message is sent if and only if its encoding has at most a mebibyte, as that size in four bytes and the
      encoding. */
  lemma {:induction false} SerializesExactly(codec: Codec, m: Message)
    ensures var data := codec.encode(m);
      var r := Serialize(codec, m);
      && (r.Some? <==> |data| <= 1048576)
      && (r.Some? ==> |r.value| == 4 + |data| && FromBigEndian(r.value[..4]) == |data| && r.value[4..] == data)
  {
    hide BigEndian, FromBigEndian;
    assert Pow256(4) > 1048576;
  }

  /** When `parse_stream` waits, when it raises, and what it takes otherwise. */
  lemma {:induction false} ParsesExactly(codec: Codec, data: bytes)
    ensures var r := ParseStream(codec, data);
      var length := if |data| < 4 then 0 else FromBigEndian(data[..4]);
      && (r.Wait? <==> |data| < 4 || (length <= 1048576 && |data| < 4 + length))
      && (r.Oversized? <==> |data| >= 4 && length > 1048576)
      && (!r.Wait? && !r.Oversized? ==>
            && (r.Undecodable? <==> codec.decode(data[4..4 + length]).None?)
            && (r.Got? ==> codec.decode(data[4..4 + length]) == Some(r.message) && r.rest == data[4 + length..]))
  {
    hide FromBigEndian;
  }

  /** Repeated `parse_stream`: the messages, the bytes left, and whether an error stopped it. */
  datatype Drained = Drained(messages: seq<Message>, rest: bytes, raised: bool)

  function Drain(codec: Codec, data: bytes): (r: Drained)
    decreases |data|
  {
    match ParseStream(codec, data)
    case Wait => Drained([], data, false)
    case Got(m, rest) => var d := Drain(codec, rest); d.(messages := [m] + d.messages)
    case _ => Drained([], data, true)
  }

  /** Feeding a buffer piece by piece and draining it after each piece; an error ends the reading. */
  function Feed(codec: Codec, pieces: seq<bytes>): (r: Drained)
  {
    if pieces == [] then Drained([], [], false)
    else
      var before := Feed(codec, pieces[..|pieces| - 1]);
      if before.raised then before.(rest := before.rest + pieces[|pieces| - 1])
      else
        var d := Drain(codec, before.rest + pieces[|pieces| - 1]);
        d.(messages := before.messages + d.messages)
  }

  lemma {:induction false} ParseMore(codec: Codec, data: bytes, more: bytes)
    requires !ParseStream(codec, data).Wait?
    ensures match ParseStream(codec, data)
            case Got(m, rest) => ParseStream(codec, data + more) == Got(m, rest + more)
            case r => ParseStream(codec, data + more) == r
  {
    hide FromBigEndian;
    assert (data + more)[..PREFIX] == data[..PREFIX];
    var total := PREFIX + FromBigEndian(data[..PREFIX]);
    if total <= |data| {
      assert (data + more)[PREFIX..total] == data[PREFIX..total];
      assert (data + more)[total..] == data[total..] + more;
    }
  }

  /** Draining early and going on later is draining once. */
  lemma {:induction false} DrainMore(codec: Codec, data: bytes, more: bytes)
    ensures var d := Drain(codec, data);
      Drain(codec, data + more) ==
        if d.raised then d.(rest := d.rest + more)
        else var e := Drain(codec, d.rest + more); e.(messages := d.messages + e.messages)
    decreases |data|
  {
    var p := ParseStream(codec, data);
    DrainUnfolds(codec, data);
    hide ParseStream, Drain;
    if p.Wait? {
      var e := Drain(codec, data + more);
      assert [] + e.messages == e.messages;
    } else {
      ParseMore(codec, data, more);
      DrainUnfolds(codec, data + more);
      if p.Got? {
        DrainMore(codec, p.rest, more);
        var d := Drain(codec, p.rest);
        Regroup([p.message], d.messages, Drain(codec, d.rest + more).messages);
      }
    }
  }

  lemma {:induction false} DrainUnfolds(codec: Codec, data: bytes)
    ensures Drain(codec, data) ==
      match ParseStream(codec, data)
      case Wait => Drained([], data, false)
      case Got(m, rest) => Drain(codec, rest).(messages := [m] + Drain(codec, rest).messages)
      case _ => Drained([], data, true)
  {
    hide ParseStream;
  }

  lemma {:induction false} Regroup(a: seq<Message>, b: seq<Message>, c: seq<Message>)
    ensures a + (b + c) == a + b + c
  {
  }

  /** However a byte stream is cut, even a malformed one, reading it in pieces gives exactly what reading it whole
      gives. */
  lemma {:induction false} CutsDoNotMatter(codec: Codec, pieces: seq<bytes>)
    ensures Feed(codec, pieces) == Drain(codec, Concat(pieces))
  {
    hide Drain;
    if pieces == [] {
      NothingToDrain(codec);
    } else {
      var front, last := pieces[..|pieces| - 1], pieces[|pieces| - 1];
      CutsDoNotMatter(codec, front);
      DrainMore(codec, Concat(front), last);
    }
  }

  lemma {:induction false} NothingToDrain(codec: Codec)
    ensures Drain(codec, []) == Drained([], [], false)
  {
  }

  // ---- Streams of serialized messages ---------------------------------------------------------

  ghost predicate Sendable(codec: Codec, ms: seq<Message>) { forall m :: m in ms ==> Serialize(codec, m).Some? }

  function StreamOf(codec: Codec, ms: seq<Message>): (r: bytes)
    requires Sendable(codec, ms)
  {
    if ms == [] then [] else Serialize(codec, ms[0]).value + StreamOf(codec, ms[1..])
  }

  lemma {:induction false} ParsesSerialized(codec: Codec, m: Message, rest: bytes)
    requires codec.Lawful() && Serialize(codec, m).Some?
    ensures ParseStream(codec, Serialize(codec, m).value + rest) == Got(m, rest)
  {
    hide BigEndian, FromBigEndian;
    var body := codec.encode(m);
    var data := Serialize(codec, m).value + rest;
    assert data[..PREFIX] == BigEndian(PREFIX, |body|);
    assert data[PREFIX..PREFIX + |body|] == body;
    assert data[PREFIX + |body|..] == rest;
  }

  /** A strict prefix of one serialized message is never consumed. */
  lemma {:induction false} PartialWaits(codec: Codec, m: Message, k: nat)
    requires Serialize(codec, m).Some? && k < |Serialize(codec, m).value|
    ensures ParseStream(codec, Serialize(codec, m).value[..k]) == Wait
  {
    hide BigEndian, FromBigEndian;
    var w := Serialize(codec, m).value;
    if k >= PREFIX { assert w[..k][..PREFIX] == w[..PREFIX] == BigEndian(PREFIX, |codec.encode(m)|); }
  }

  /** Cut anywhere, a stream of messages yields the messages that lie wholly before the cut and keeps the rest. */
  lemma {:induction false} DrainsPrefix(codec: Codec, ms: seq<Message>, k: nat) returns (n: nat)
    requires codec.Lawful() && Sendable(codec, ms) && k <= |StreamOf(codec, ms)|
    ensures n <= |ms| && Sendable(codec, ms[..n])
    ensures var d := Drain(codec, StreamOf(codec, ms)[..k]);
      && d.messages == ms[..n] && !d.raised
      && (k == |StreamOf(codec, ms)| ==> n == |ms| && d.rest == [])
      && (n < |ms| ==> |d.rest| < |Serialize(codec, ms[n]).value| && d.rest <= Serialize(codec, ms[n]).value)
    decreases |ms|
  {
    hide Serialize, ParseStream;
    n := 0;
    if ms == [] {
      NothingToDrain(codec);
    } else {
      var w, rest := Serialize(codec, ms[0]).value, ms[1..];
      var all := StreamOf(codec, ms);
      assert ms[0] in ms && forall m :: m in rest ==> m in ms;
      if k < |w| {
        assert all[..k] == w[..k];
        PartialWaits(codec, ms[0], k);
      } else {
        var tail := StreamOf(codec, rest);
        assert all[..k] == w + tail[..k - |w|];
        ParsesSerialized(codec, ms[0], tail[..k - |w|]);
        var j := DrainsPrefix(codec, rest, k - |w|);
        n := j + 1;
        assert ms[..n] == [ms[0]] + rest[..j];
        if n < |ms| { assert ms[n] == rest[j]; }
      }
    }
  }

  /** For every list of messages and every cut of their bytes, reading recovers exactly that list with nothing left. */
  lemma {:induction false} RecoversEveryMessage(codec: Codec, ms: seq<Message>, pieces: seq<bytes>)
    requires codec.Lawful() && Sendable(codec, ms) && Concat(pieces) == StreamOf(codec, ms)
    ensures Feed(codec, pieces) == Drained(ms, [], false)
  {
    hide Drain, Serialize;
    CutsDoNotMatter(codec, pieces);
    var all := StreamOf(codec, ms);
    var n := DrainsPrefix(codec, ms, |all|);
    assert all[..|all|] == all && ms[..n] == ms;
  }

  // ---- The readexactly loops --------------------------------------------------------------------

  /** The framing loop of `handle_client` on a connection that ends after `stream`: four bytes, a length check, the
      body, the decoding; it reads the same messages as repeated `parse_stream`, for every stream. */
  method ReadLoop(codec: Codec, stream: bytes) returns (messages: seq<Message>)
    ensures messages == Drain(codec, stream).messages
  {
    hide ParseStream;
    messages := [];
    var pos := 0;
    assert stream[0..] == stream;
    while pos < |stream|
      invariant 0 <= pos <= |stream|
      invariant messages + Drain(codec, stream[pos..]).messages == Drain(codec, stream).messages
      decreases |stream| - pos
    {
      var r, size := ReadOne(codec, stream[pos..]);
      if !r.Got? { return; }
      assert r.rest == stream[pos + size..];
      messages := messages + [r.message];
      pos := pos + size;
    }
  }

  /** One round of that loop, and `recv_message`: the prefix, the length check, the body, the decoding. */
  method ReadOne(codec: Codec, left: bytes) returns (r: Parse, size: nat)
    ensures r == ParseStream(codec, left)
    ensures r.Got? ==> 0 < size <= |left| && r.rest == left[size..]
  {
    hide FromBigEndian;
    size := 0;
    if |left| < 4 { return Wait, 0; }
    var length := FromBigEndian(left[..4]);
    if length > MAX_MESSAGE_SIZE { return Oversized, 0; }
    size := 4 + length;
    if |left| < size { return Wait, 0; }
    match codec.decode(left[4..size]) {
      case None => return Undecodable, 0;
      case Some(m) => return Got(m, left[size..]), size;
    }
  }
}
