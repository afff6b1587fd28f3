/** The incremental HTTP/1.1 request parser (proxy/connection.py, HttpParser). */
module Http {
  import opened Bytes
  import opened Chunked

  const MAX_HEADER_SIZE := 16384

  datatype Head = Head(verb: string, path: string, version: string, headers: map<string, string>)

  datatype Request = Request(head: Head, body: bytes)

  /** Text handling of the header block: decoding, line splitting and field parsing (None is the ValueError for a bad
      request line), lower-casing, and `int()` on a header value. Everything below holds for any such functions. */
  datatype Text = Text(interpret: bytes -> Option<Head>, lower: string -> string, toInt: string -> Option<int>) {
    predicate IsChunked(h: Head) {
      "transfer-encoding" in h.headers && lower(h.headers["transfer-encoding"]) == "chunked"
    }

    function ContentLength(h: Head): int {
      if "content-length" !in h.headers then 0
      else match toInt(h.headers["content-length"])
           case None => 0
           case Some(n) => n
    }
  }

  /** `NeverReturns`: the chunk scanner loops for ever. */
  datatype Outcome =
    | NeedMore | HeadersTooLarge | BadRequestLine | BadChunk | NeverReturns | Done(request: Request, rest: bytes)

  /** `_try_parse`: the result and, when done, the buffer that remains. */
  function TryParse(text: Text, buffer: bytes): (r: Outcome)
  {
    var idx := Find(buffer, BLANK_LINE, 0);
    if idx == -1 then (if |buffer| > MAX_HEADER_SIZE then HeadersTooLarge else NeedMore)
    else
      match text.interpret(buffer[..idx])
      case None => BadRequestLine
      case Some(h) => ParseBody(text, h, buffer, idx + 4)
  }

  /** The guard on `consumed` always holds (`CompleteWithin`); it makes the slice well defined. */
  function ParseBody(text: Text, h: Head, buffer: bytes, start: nat): (r: Outcome)
    requires start <= |buffer|
  {
    var n := text.ContentLength(h);
    if text.IsChunked(h) then
      match ScanChunked(buffer[start..])
      case Complete(body, consumed) =>
        if start + consumed <= |buffer| then Done(Request(h, body), buffer[start + consumed..]) else NeedMore
      case Incomplete => NeedMore
      case InvalidSize => BadChunk
      case _ => NeverReturns
    else if n > 0 then
      if |buffer| - start < n then NeedMore
      else Done(Request(h, buffer[start..start + n]), buffer[start + n..])
    else Done(Request(h, []), [])
  }

  class HttpParser {
    const text: Text
    var buffer: bytes

    constructor (text: Text)
      ensures this.text == text && buffer == []
    {
      this.text, buffer := text, [];
    }

    method Feed(data: bytes) returns (r: Outcome)
      modifies this
      ensures r == TryParse(text, old(buffer) + data)
      ensures buffer == if r.Done? then r.rest else old(buffer) + data
    {
      hide ScanFrom, ScanChunked;
      buffer := buffer + data;
      var idx := Find(buffer, BLANK_LINE, 0);
      if idx == -1 {
        if |buffer| > MAX_HEADER_SIZE { return HeadersTooLarge; }
        return NeedMore;
      }
      var head := text.interpret(buffer[..idx]);
      if head.None? { return BadRequestLine; }
      var start := idx + 4;
      if text.IsChunked(head.value) {
        var scan := ParseChunked(buffer[start..]);
        match scan {
          case Incomplete => return NeedMore;
          case InvalidSize => return BadChunk;
          case Hangs | Negative => return NeverReturns;
          case Complete(body, consumed) =>
            CompleteWithin(buffer[start..]);
            buffer := buffer[start + consumed..];
            return Done(Request(head.value, body), buffer);
        }
      }
      var length := text.ContentLength(head.value);
      if length > 0 {
        if |buffer| - start < length { return NeedMore; }
        var body := buffer[start..start + length];
        buffer := buffer[start + length..];
        return Done(Request(head.value, body), buffer);
      }
      buffer := [];
      return Done(Request(head.value, []), buffer);
    }
  }

  lemma {:induction false} CompleteWithin(data: bytes)
    ensures ScanChunked(data).Complete? ==> ScanChunked(data).consumed <= |data|
  {
    FollowWithin(data, 0, [], {});
  }

  // ---- Where a request ends -------------------------------------------------------------

  predicate HasBody(text: Text, h: Head) { text.IsChunked(h) || text.ContentLength(h) > 0 }

  /** The position just after the request at the front of a buffer that parses. */
  function RequestEnd(text: Text, buffer: bytes): (n: nat)
    requires TryParse(text, buffer).Done?
    ensures n <= |buffer|
  {
    var start := Find(buffer, BLANK_LINE, 0) + 4;
    var h := TryParse(text, buffer).request.head;
    if text.IsChunked(h) then start + ScanChunked(buffer[start..]).consumed
    else if text.ContentLength(h) > 0 then start + text.ContentLength(h)
    else start
  }

  /** The request at the front of a buffer that parses has no negative chunk size. */
  predicate PlainRequest(text: Text, buffer: bytes)
    requires TryParse(text, buffer).Done?
  {
    text.IsChunked(TryParse(text, buffer).request.head) ==> Plain(buffer[Find(buffer, BLANK_LINE, 0) + 4..])
  }

  /** Cutting a buffer that parses: before the request's end nothing is returned, from its end on the same request is.
      */
  lemma {:induction false} ParseOfPrefix(text: Text, m: bytes, k: nat)
    requires TryParse(text, m).Done? && PlainRequest(text, m) && k <= |m|
    requires k < Find(m, BLANK_LINE, 0) + 4 ==> k <= MAX_HEADER_SIZE
    ensures k < RequestEnd(text, m) ==> TryParse(text, m[..k]) == NeedMore
    ensures k >= RequestEnd(text, m) ==>
      TryParse(text, m[..k]).Done? && TryParse(text, m[..k]).request == TryParse(text, m).request
  {
    hide ScanFrom, ScanChunked, Find, At;
    var idx := Find(m, BLANK_LINE, 0);
    var start := idx + 4;
    FindInPrefix(m, k, BLANK_LINE, 0);
    if start <= k {
      assert m[..k][..idx] == m[..idx];
      var h := text.interpret(m[..idx]).value;
      if text.IsChunked(h) {
        var data := m[start..];
        assert m[..k][start..] == data[..k - start];
        PlainScan(data);
        ScanOfPrefix(data, k - start, 0, []);
        PlainScan(data[..k - start]);
      } else if text.ContentLength(h) > 0 && k - start >= text.ContentLength(h) {
        assert m[..k][start..start + text.ContentLength(h)] == m[start..start + text.ContentLength(h)];
      }
    }
  }

  // ---- Any way of cutting the bytes gives the same request ------------------------------------

  /** The outcomes of feeding the pieces in turn, starting from an empty buffer, and the buffer after them. */
  function FeedAll(text: Text, pieces: seq<bytes>): (r: (seq<Outcome>, bytes))
    ensures |r.0| == |pieces|
  {
    if pieces == [] then ([], [])
    else
      var (outs, buffer) := FeedAll(text, pieces[..|pieces| - 1]);
      var all := buffer + pieces[|pieces| - 1];
      var r := TryParse(text, all);
      (outs + [r], if r.Done? then r.rest else all)
  }

  /** One request, without negative chunk sizes, and nothing after it. */
  ghost predicate ExactRequest(text: Text, m: bytes) {
    TryParse(text, m).Done? && PlainRequest(text, m) && RequestEnd(text, m) == |m|
  }

  ghost predicate Splits(pieces: seq<bytes>, m: bytes) {
    pieces != [] && pieces[|pieces| - 1] != [] && Concat(pieces) == m
  }

  /** None until the last piece, then the request of a single feed, and an empty buffer. */
  ghost predicate ParsedAtLast(text: Text, pieces: seq<bytes>, m: bytes)
    requires pieces != []
  {
    var (outs, buffer) := FeedAll(text, pieces);
    && (forall i :: 0 <= i < |pieces| - 1 ==> outs[i] == NeedMore)
    && outs[|pieces| - 1] == TryParse(text, m)
    && buffer == []
  }

  lemma {:induction false} PrefixWaits(text: Text, m: bytes, pieces: seq<bytes>)
    requires ExactRequest(text, m) && Find(m, BLANK_LINE, 0) + 3 <= MAX_HEADER_SIZE
    requires Concat(pieces) < m
    ensures FeedAll(text, pieces).1 == Concat(pieces)
    ensures forall i :: 0 <= i < |pieces| ==> FeedAll(text, pieces).0[i] == NeedMore
  {
    hide TryParse, Find;
    if pieces != [] {
      var front := pieces[..|pieces| - 1];
      assert Concat(front) <= Concat(pieces);
      PrefixWaits(text, m, front);
      var k := |Concat(pieces)|;
      assert m[..k] == Concat(pieces);
      ParseOfPrefix(text, m, k);
    }
  }

  lemma {:induction false} EverySplitWorks(text: Text, m: bytes, pieces: seq<bytes>)
    requires ExactRequest(text, m) && Find(m, BLANK_LINE, 0) + 3 <= MAX_HEADER_SIZE && Splits(pieces, m)
    ensures ParsedAtLast(text, pieces, m)
  {
    hide Find;
    var front := pieces[..|pieces| - 1];
    assert Concat(front) < m;
    PrefixWaits(text, m, front);
    assert Concat(front) + pieces[|pieces| - 1] == m;
    ExactLeavesNothing(text, m);
  }

  lemma {:induction false} ExactLeavesNothing(text: Text, m: bytes)
    requires ExactRequest(text, m)
    ensures TryParse(text, m).rest == []
  {
    hide ScanFrom, ScanChunked, Find;
  }

  /** All splits of a request give what a single feed gives, if and only if the header section (without its last
      line feed) fits the header limit. */
  lemma {:induction false} SplitIndependentExactly(text: Text, m: bytes)
    requires ExactRequest(text, m)
    ensures (forall pieces :: Splits(pieces, m) ==> ParsedAtLast(text, pieces, m))
       <==> Find(m, BLANK_LINE, 0) + 3 <= MAX_HEADER_SIZE
  {
    if Find(m, BLANK_LINE, 0) + 3 <= MAX_HEADER_SIZE {
      forall pieces | Splits(pieces, m) ensures ParsedAtLast(text, pieces, m) {
        EverySplitWorks(text, m, pieces);
      }
    } else {
      LongHeaderSplitFails(text, m);
    }
  }

  lemma {:induction false} LongHeaderSplitFails(text: Text, m: bytes)
    requires ExactRequest(text, m) && Find(m, BLANK_LINE, 0) + 3 > MAX_HEADER_SIZE
    ensures exists pieces :: Splits(pieces, m) && !ParsedAtLast(text, pieces, m)
  {
    hide ScanFrom, ScanChunked, Find;
    var k := Find(m, BLANK_LINE, 0) + 3;
    var pieces := [m[..k], m[k..]];
    assert pieces[..1] == [m[..k]] && [m[..k]][..0] == [];
    assert Concat([m[..k]]) == m[..k];
    assert Splits(pieces, m);
    FindInPrefix(m, k, BLANK_LINE, 0);
    assert [] + m[..k] == m[..k];
    assert FeedAll(text, [m[..k]]).0 == [HeadersTooLarge];
    assert FeedAll(text, pieces).0[0] == HeadersTooLarge;
  }

  // ---- Bytes after the request -----------------------------------------------------------------

  /** The bytes after a request stay in the buffer exactly when the request has a body or nothing follows it:
      a request without a body drops whatever was read behind it. */
  lemma {:induction false} SurplusKeptExactly(text: Text, buffer: bytes)
    requires TryParse(text, buffer).Done?
    ensures TryParse(text, buffer).rest == buffer[RequestEnd(text, buffer)..] <==>
      HasBody(text, TryParse(text, buffer).request.head) || RequestEnd(text, buffer) == |buffer|
  {
    hide ScanFrom, ScanChunked, Find;
  }

  /** How the headers announce a body: chunked coding by `transfer-encoding`, in any case, else a positive number in
      `content-length`, else none. */
  lemma {:induction false} BodyKindExactly(text: Text, h: Head, n: int)
    requires n > 0
    ensures text.IsChunked(h) <==>
      "transfer-encoding" in h.headers && text.lower(h.headers["transfer-encoding"]) == "chunked"
    ensures text.ContentLength(h) == n <==>
      "content-length" in h.headers && text.toInt(h.headers["content-length"]) == Some(n)
    ensures HasBody(text, h) <==> text.IsChunked(h) || text.ContentLength(h) > 0
  {
  }

  /** The errors: a header section that does not end within the limit, and a request line that cannot be read. */
  lemma {:induction false} RefusesExactly(text: Text, buffer: bytes)
    ensures var r := TryParse(text, buffer);
      && (r.HeadersTooLarge? <==> |buffer| > 16384 && forall i :: !At(buffer, [13, 10, 13, 10], i))
      && (r.BadRequestLine? <==>
            exists i :: 0 <= i && FirstBlank(buffer, i) && text.interpret(buffer[..i]).None?)
  {
    hide ScanChunked;
    var idx := Find(buffer, BLANK_LINE, 0);
    if idx != -1 { assert FirstBlank(buffer, idx); }
    else { assert forall i :: !At(buffer, BLANK_LINE, i); }
  }

  ghost predicate FirstBlank(buffer: bytes, i: int) {
    At(buffer, [13, 10, 13, 10], i) && forall j :: 0 <= j < i ==> !At(buffer, [13, 10, 13, 10], j)
  }

  /** Any header block that announces a length, with its blank line and a body of that length, is exactly one request
      with that body, and what follows is kept. */
  lemma {:induction false} SizedRequestIsExact(text: Text, block: bytes, h: Head, body: bytes, rest: bytes)
    requires Find(block + BLANK_LINE, BLANK_LINE, 0) == |block|
    requires text.interpret(block) == Some(h) && !text.IsChunked(h) && text.ContentLength(h) == |body| > 0
    ensures TryParse(text, block + BLANK_LINE + body + rest) == Done(Request(h, body), rest)
    ensures ExactRequest(text, block + BLANK_LINE + body)
  {
    SizedParses(text, block, h, body, rest);
    SizedParses(text, block, h, body, []);
    assert block + BLANK_LINE + body + [] == block + BLANK_LINE + body;
    hide TryParse, Find;
  }

  lemma {:induction false} SizedParses(text: Text, block: bytes, h: Head, body: bytes, rest: bytes)
    requires Find(block + BLANK_LINE, BLANK_LINE, 0) == |block|
    requires text.interpret(block) == Some(h) && !text.IsChunked(h) && text.ContentLength(h) == |body| > 0
    ensures var m := block + BLANK_LINE + body + rest;
      TryParse(text, m) == Done(Request(h, body), rest) && Find(m, BLANK_LINE, 0) == |block|
  {
    hide Find, At, ScanChunked;
    var m := block + BLANK_LINE + body + rest;
    var start := |block| + 4;
    assert m[..start] == block + BLANK_LINE;
    FindStarts(m, start);
    assert m[..|block|] == block && m[start..start + |body|] == body && m[start + |body|..] == rest;
  }

  /** Any header block without a body, with its blank line, is exactly one request. */
  lemma {:induction false} BodilessRequestIsExact(text: Text, block: bytes, h: Head)
    requires Find(block + BLANK_LINE, BLANK_LINE, 0) == |block|
    requires text.interpret(block) == Some(h) && !HasBody(text, h)
    ensures ExactRequest(text, block + BLANK_LINE)
    ensures TryParse(text, block + BLANK_LINE) == Done(Request(h, []), [])
  {
    hide Find, At;
    assert (block + BLANK_LINE)[..|block|] == block;
  }

  /** Whatever is read together with it is lost. */
  lemma {:induction false} BodilessDropsSurplus(text: Text, block: bytes, h: Head, surplus: bytes)
    requires Find(block + BLANK_LINE, BLANK_LINE, 0) == |block|
    requires text.interpret(block) == Some(h) && !HasBody(text, h)
    ensures TryParse(text, block + BLANK_LINE + surplus) == Done(Request(h, []), [])
  {
    hide Find, At;
    var m := block + BLANK_LINE + surplus;
    assert m[..|block| + 4] == block + BLANK_LINE;
    FindStarts(m, |block| + 4);
    assert m[..|block|] == block;
  }

  /** And a header block too long for the limit is accepted in one piece, but refused if its last byte comes alone. */
  lemma {:induction false} LongHeaderDependsOnCut(text: Text, block: bytes, h: Head)
    requires Find(block + BLANK_LINE, BLANK_LINE, 0) == |block| && |block| + 3 > MAX_HEADER_SIZE
    requires text.interpret(block) == Some(h) && !HasBody(text, h)
    ensures FeedAll(text, [block + BLANK_LINE]).0 == [Done(Request(h, []), [])]
    ensures TryParse(text, block + [CR, LF, CR]) == HeadersTooLarge
  {
    hide TryParse, FeedAll, ExactRequest, Find, HasBody;
    var m := block + BLANK_LINE;
    BodilessRequestIsExact(text, block, h);
    OneFeed(text, m);
    FindInPrefix(m, |block| + 3, BLANK_LINE, 0);
    assert m[..|block| + 3] == block + [CR, LF, CR];
    TooLong(text, block + [CR, LF, CR]);
  }

  lemma {:induction false} OneFeed(text: Text, m: bytes)
    ensures FeedAll(text, [m]).0 == [TryParse(text, m)]
  {
    hide TryParse;
    var one: seq<bytes> := [m];
    assert one[..0] == [] && [] + m == m;
  }

  lemma {:induction false} TooLong(text: Text, s: bytes)
    requires Find(s, BLANK_LINE, 0) == -1 && |s| > MAX_HEADER_SIZE
    ensures TryParse(text, s) == HeadersTooLarge
  {
    hide Find;
  }

  /** Any header block that announces chunked coding, followed by any valid chunked body with a trailer, is exactly
      one request with the concatenated chunks as its body, so every split of it parses alike. */
  lemma {:induction false} ChunkedRequestIsExact(text: Text, block: bytes, h: Head,
                                                 chunks: seq<Chunk>, last: bytes, trailers: seq<bytes>)
    requires Find(block + BLANK_LINE, BLANK_LINE, 0) == |block|
    requires text.interpret(block) == Some(h) && text.IsChunked(h)
    requires ValidMessage(chunks, last, trailers) && trailers != []
    ensures var m := block + BLANK_LINE + Message(chunks, last, trailers);
      ExactRequest(text, m) && TryParse(text, m) == Done(Request(h, Body(chunks)), [])
  {
    hide ScanFrom, ScanChunked, Find, At, Message, Body;
    var msg := Message(chunks, last, trailers);
    var m := block + BLANK_LINE + msg;
    var start := |block| + 4;
    assert m[..start] == block + BLANK_LINE;
    FindInPrefix(m, start, BLANK_LINE, 0);
    FindStarts(m, start);
    assert m[..|block|] == block && m[start..] == msg && msg + [] == msg;
    DecodesWithTrailer(chunks, last, trailers, []);
    assert m[start + |msg|..] == [];
  }

  lemma {:induction false} FindStarts(m: bytes, k: nat)
    requires k <= |m| && Find(m[..k], BLANK_LINE, 0) != -1
    ensures Find(m, BLANK_LINE, 0) == Find(m[..k], BLANK_LINE, 0)
  {
    FindInPrefix(m, k, BLANK_LINE, 0);
  }
}
