/** Chunked transfer coding: the buffer scanner of the request parser and the line reader of the upstream
    client (proxy/connection.py), against the message grammar of section 7.1 of RFC 9112. */
module Chunked {
  import opened Bytes

  // ---- Python's int(text, 16) --------------------------------------------------------

  predicate IsSpace(b: byte) { b == 32 || 9 <= b <= 13 }

  predicate IsHex(b: byte) { 48 <= b <= 57 || 65 <= b <= 70 || 97 <= b <= 102 }

  function HexDigit(b: byte): nat
    requires IsHex(b)
  {
    if b <= 57 then b - 48 else if b <= 70 then b - 55 else b - 87
  }

  function LeftStrip(s: bytes): (r: bytes)
  {
    if s != [] && IsSpace(s[0]) then LeftStrip(s[1..]) else s
  }

  function RightStrip(s: bytes): (r: bytes)
  {
    if s != [] && IsSpace(s[|s| - 1]) then RightStrip(s[..|s| - 1]) else s
  }

  function Strip(s: bytes): (r: bytes) { RightStrip(LeftStrip(s)) }

  /** Hexadecimal digits with single underscores allowed between them. */
  function HexNumber(s: bytes): (v: Option<nat>)
  {
    if s == [] || !IsHex(s[|s| - 1]) then None
    else
      var d, front := HexDigit(s[|s| - 1]), s[..|s| - 1];
      if front == [] then Some(d)
      else
        match HexNumber(if front[|front| - 1] == 95 then front[..|front| - 1] else front)
        case None => None
        case Some(v) => Some(16 * v + d)
  }

  /** `int(text, 16)`: surrounding white space, a sign, an 0x prefix and underscores are accepted; None is ValueError.
      */
  function ParseInt16(text: bytes): (v: Option<int>)
  {
    var t := Strip(text);
    var signed := t != [] && (t[0] == 43 || t[0] == 45);
    var u := if signed then t[1..] else t;
    var prefixed := |u| >= 2 && u[0] == 48 && (u[1] == 120 || u[1] == 88);
    var digits := if !prefixed then u else if |u| > 2 && u[2] == 95 then u[3..] else u[2..];
    match HexNumber(digits)
    case None => None
    case Some(n) => var m: int := n; Some(if signed && t[0] == 45 then -m else m)
  }

  /** The 1*HEXDIG grammar of a chunk size and its value. */
  predicate AllHex(s: bytes) { forall i :: 0 <= i < |s| ==> IsHex(s[i]) }

  function HexValue(s: bytes): (v: nat)
    requires AllHex(s)
  {
    if s == [] then 0 else 16 * HexValue(s[..|s| - 1]) + HexDigit(s[|s| - 1])
  }

  lemma {:induction false} HexNumberIsValue(s: bytes)
    requires AllHex(s) && s != []
    ensures HexNumber(s) == Some(HexValue(s))
  {
    if |s| > 1 { HexNumberIsValue(s[..|s| - 1]); }
  }

  lemma {:induction false} StripsLineEnd(s: bytes)
    requires AllHex(s) && s != []
    ensures Strip(s) == s && Strip(s + CRLF) == s
  {
    assert RightStrip(s) == s;
    var t := s + CRLF;
    assert t[0] == s[0] && LeftStrip(t) == t;
    assert t[..|t| - 1] == s + [CR];
    assert (s + [CR])[..|s|] == s;
    assert RightStrip(t) == RightStrip(s + [CR]) == RightStrip(s);
  }

  /** A size in the grammar means the same to `int(..., 16)`, with or without its line end. */
  lemma {:induction false} GrammarSizes(s: bytes)
    requires AllHex(s) && s != []
    ensures ParseInt16(s) == Some(HexValue(s))
    ensures ParseInt16(Strip(s + CRLF)) == Some(HexValue(s))
  {
    StripsLineEnd(s);
    HexNumberIsValue(s);
  }

  const DIGITS: bytes := [48, 49, 50, 51, 52, 53, 54, 55, 56, 57, 97, 98, 99, 100, 101, 102]
  const CAPITALS: bytes := [65, 66, 67, 68, 69, 70]

  /** The sixteen digits and their values, in either case; nothing else is a digit, and the white space is Python's. */
  lemma {:induction false} HexTable(b: byte)
    ensures IsHex(b) <==> b in DIGITS || b in CAPITALS
    ensures forall i :: 0 <= i < 16 ==> IsHex(DIGITS[i]) && HexDigit(DIGITS[i]) == i
    ensures forall i :: 0 <= i < 6 ==> IsHex(CAPITALS[i]) && HexDigit(CAPITALS[i]) == 10 + i
    ensures IsSpace(b) <==> b in [9, 10, 11, 12, 13, 32]
  {
    assert forall i :: 0 <= i < 16 ==> DIGITS[i] == if i < 10 then 48 + i else 87 + i;
    assert forall i :: 0 <= i < 6 ==> CAPITALS[i] == 65 + i;
    if 48 <= b <= 57 { assert DIGITS[b - 48] == b; }
    if 97 <= b <= 102 { assert DIGITS[b - 87] == b; }
    if 65 <= b <= 70 { assert CAPITALS[b - 65] == b; }
  }

  predicate AllSpace(s: bytes) { forall i :: 0 <= i < |s| ==> IsSpace(s[i]) }

  lemma {:induction false} StripsSpace(before: bytes, s: bytes, behind: bytes)
    requires AllSpace(before) && AllSpace(behind) && s != [] && !IsSpace(s[0]) && !IsSpace(s[|s| - 1])
    ensures Strip(before + s + behind) == s
  {
    StripsLeft(before, s + behind);
    assert before + s + behind == before + (s + behind);
    StripsRight(s, behind);
  }

  lemma {:induction false} StripsLeft(before: bytes, s: bytes)
    requires AllSpace(before) && s != [] && !IsSpace(s[0])
    ensures LeftStrip(before + s) == s
  {
    if before == [] {
      assert before + s == s;
    } else {
      assert (before + s)[1..] == before[1..] + s;
      StripsLeft(before[1..], s);
    }
  }

  lemma {:induction false} StripsRight(s: bytes, behind: bytes)
    requires AllSpace(behind) && s != [] && !IsSpace(s[|s| - 1])
    ensures RightStrip(s + behind) == s
  {
    if behind == [] {
      assert s + behind == s;
    } else {
      var t := s + behind;
      assert t[..|t| - 1] == s + behind[..|behind| - 1];
      StripsRight(s, behind[..|behind| - 1]);
    }
  }

  /** What else `int(..., 16)` takes for the number `s`: white space around it and a plus sign. */
  lemma {:induction false} LenientSizes(before: bytes, s: bytes, behind: bytes)
    requires AllSpace(before) && AllSpace(behind) && AllHex(s) && s != []
    ensures ParseInt16(before + s + behind) == Some(HexValue(s))
    ensures ParseInt16(before + ([43] + s) + behind) == Some(HexValue(s))
  {
    hide HexNumber, HexValue, Strip;
    HexNumberIsValue(s);
    StripsSpace(before, s, behind);
    var plus := [43] + s;
    assert plus[|plus| - 1] == s[|s| - 1];
    StripsSpace(before, plus, behind);
    assert plus[1..] == s;
  }

  /** Also an 0x in either case, with or without an underscore behind it. */
  lemma {:induction false} PrefixedSizes(x: byte, s: bytes)
    requires AllHex(s) && s != [] && (x == 120 || x == 88)
    ensures ParseInt16([48, x] + s) == Some(HexValue(s))
    ensures ParseInt16([48, x, 95] + s) == Some(HexValue(s))
  {
    hide HexNumber, HexValue, Strip;
    HexNumberIsValue(s);
    var plain, under := [48, x] + s, [48, x, 95] + s;
    assert plain[|plain| - 1] == s[|s| - 1] && under[|under| - 1] == s[|s| - 1];
    StripsSpace([], plain, []);
    StripsSpace([], under, []);
    assert [] + plain + [] == plain && [] + under + [] == under;
    assert plain[2..] == s && under[3..] == s;
  }

  /** And an underscore between two digits. */
  lemma {:induction false} UnderscoredSizes(a: bytes, b: bytes)
    requires AllHex(a) && AllHex(b) && a != [] && b != []
    ensures AllHex(a + b) && HexNumber(a + [95] + b) == Some(HexValue(a + b))
    decreases |b|
  {
    hide HexNumber, HexValue;
    var c, d := b[..|b| - 1], b[|b| - 1];
    assert a + [95] + b == a + [95] + c + [d] && a + b == a + c + [d];
    OneMoreDigit(a + [95] + c, d);
    OneMoreValue(a + c, d);
    if c == [] {
      assert a + [95] + c == a + [95] && (a + [95])[..|a|] == a && a + c == a;
      HexNumberIsValue(a);
    } else {
      assert (a + [95] + c)[|a| + |c|] == c[|c| - 1];
      UnderscoredSizes(a, c);
    }
  }

  lemma {:induction false} OneMoreDigit(front: bytes, d: byte)
    requires IsHex(d) && front != []
    ensures HexNumber(front + [d]) ==
      match HexNumber(if front[|front| - 1] == 95 then front[..|front| - 1] else front)
      case None => None
      case Some(v) => Some(16 * v + HexDigit(d))
  {
    assert (front + [d])[..|front|] == front;
  }

  lemma {:induction false} OneMoreValue(front: bytes, d: byte)
    requires IsHex(d) && AllHex(front)
    ensures AllHex(front + [d]) && HexValue(front + [d]) == 16 * HexValue(front) + HexDigit(d)
  {
    assert (front + [d])[..|front|] == front;
  }

  /** And it takes nothing with any other byte in it. */
  lemma {:induction false} NumbersAreHex(s: bytes, i: nat)
    requires HexNumber(s).Some? && i < |s|
    ensures IsHex(s[i]) || s[i] == 95
    decreases |s|
  {
    if i < |s| - 1 {
      var front := s[..|s| - 1];
      if front[|front| - 1] != 95 { NumbersAreHex(front, i); }
      else if i < |front| - 1 { NumbersAreHex(front[..|front| - 1], i); }
    }
  }

  // ---- The buffer scanner ---------------------------------------------------------------

  /** `Hangs`: the loop never ends (see `HangsExactly`). `Negative` is the answer of the plain scan alone. */
  datatype Scan = Complete(body: bytes, consumed: nat) | Incomplete | InvalidSize | Hangs | Negative

  datatype Line = NoLine | BadSize | Size(n: int, next: nat)

  /** The size line at `pos` and the position after its line end. */
  function SizeLine(data: bytes, pos: nat): (r: Line)
    ensures r.Size? ==> pos < r.next <= |data|
  {
    var eol := Find(data, CRLF, pos);
    if eol == -1 then NoLine
    else
      match ParseInt16(data[pos..eol])
      case None => BadSize
      case Some(n) => Size(n, eol + 2)
  }

  /** Where Python's `find` and slicing start: a negative position counts from the end. */
  function Start(data: bytes, pos: int): (r: nat)
    requires data != [] && pos < |data|
    ensures r < |data|
  {
    if pos >= 0 then pos else if |data| + pos < 0 then 0 else |data| + pos
  }

  /** `data[p:p + n]`: with a negative size empty, unless the end lies before the start of the data and wraps round. */
  function Piece(data: bytes, p: nat, n: int): (r: bytes)
    requires p <= |data| && p + n <= |data|
  {
    var stop := if p + n < 0 then |data| + p + n else p + n;
    if stop > p then data[p..stop] else []
  }

  /** What a turn adds: the announced bytes for a positive size; for a negative one nothing, unless it reaches `k` bytes
      before the start, when it is all from `p` to `k` bytes before the end. */
  lemma {:induction false} PieceExactly(data: bytes, p: nat, n: int, k: nat)
    requires p <= |data| && p + n <= |data| && k > 0
    ensures n >= 0 ==> Piece(data, p, n) == data[p..p + n]
    ensures n < 0 && p + n >= 0 ==> Piece(data, p, n) == []
    ensures p + n + k == 0 ==> Piece(data, p, n) == if p + k <= |data| then data[p..|data| - k] else []
  {
  }

  /** One turn of the loop at position `at`: an answer, or the next position and what is added to the body. */
  datatype Turn = Answer(answer: Scan) | Go(next: int, piece: bytes)

  function TurnAt(data: bytes, at: nat, body: bytes): (r: Turn)
  {
    match SizeLine(data, at)
    case NoLine => Answer(Incomplete)
    case BadSize => Answer(InvalidSize)
    case Size(n, p) =>
      if n == 0 then
        var q := Find(data, BLANK_LINE, p);
        Answer(if q == -1 then Incomplete else Complete(body, q + 4))
      else if p + n + 2 > |data| then Answer(Incomplete)
      else Go(p + n + 2, Piece(data, p, n))
  }

  function Unseen(data: bytes, seen: set<nat>): set<nat> { set i: nat | i < |data| && i !in seen }

  lemma {:induction false} UnseenShrinks(data: bytes, seen: set<nat>, at: nat)
    requires at < |data| && at !in seen
    ensures |Unseen(data, seen + {at})| < |Unseen(data, seen)|
  {
    assert Unseen(data, seen + {at}) == Unseen(data, seen) - {at};
    assert at in Unseen(data, seen);
  }

  /** The loop from `pos`. What a turn does depends on the position alone, so a position met again (`seen`) is met
      for ever. */
  function Follow(data: bytes, pos: int, body: bytes, seen: set<nat>): (r: Scan)
    decreases |Unseen(data, seen)|
  {
    if data == [] || pos >= |data| then Incomplete
    else
      var at := Start(data, pos);
      if at in seen then Hangs
      else
        match TurnAt(data, at, body)
        case Answer(r) => r
        case Go(next, piece) => UnseenShrinks(data, seen, at); Follow(data, next, body + piece, seen + {at})
  }

  function ScanChunked(data: bytes): (r: Scan) { Follow(data, 0, [], {}) }

  lemma {:induction false} FollowUnfolds(data: bytes, pos: int, body: bytes, seen: set<nat>)
    ensures data == [] || pos >= |data| ==> Follow(data, pos, body, seen) == Incomplete
    ensures data != [] && pos < |data| ==>
      var at := Start(data, pos);
      && (at in seen ==> Follow(data, pos, body, seen) == Hangs)
      && (at !in seen ==>
            && |Unseen(data, seen + {at})| < |Unseen(data, seen)|
            && Follow(data, pos, body, seen) ==
               match TurnAt(data, at, body)
               case Answer(r) => r
               case Go(next, piece) => Follow(data, next, body + piece, seen + {at}))
  {
    hide TurnAt, Unseen;
    if data != [] && pos < |data| && Start(data, pos) !in seen { UnseenShrinks(data, seen, Start(data, pos)); }
  }

  /** `_parse_chunked`; where the source would loop for ever the method says so. */
  method ParseChunked(data: bytes) returns (r: Scan)
    ensures r == ScanChunked(data)
  {
    hide ParseInt16, Find, At, Unseen, Follow;
    var result: bytes := [];
    var pos: int := 0;
    var seen: set<nat> := {};
    while pos < |data|
      invariant data == [] ==> pos == 0
      invariant Follow(data, pos, result, seen) == ScanChunked(data)
      decreases |Unseen(data, seen)|
    {
      FollowUnfolds(data, pos, result, seen);
      var at := Start(data, pos);
      if at in seen { return Hangs; }
      var eol := Find(data, CRLF, at);
      if eol == -1 { return Incomplete; }
      var size := ParseInt16(data[at..eol]);
      if size.None? { return InvalidSize; }
      assert SizeLine(data, at) == Size(size.value, eol + 2);
      pos := eol + 2;
      if size.value == 0 {
        pos := Find(data, BLANK_LINE, pos);
        if pos == -1 { return Incomplete; }
        return Complete(result, pos + 4);
      }
      if pos + size.value + 2 > |data| { return Incomplete; }
      result := result + Piece(data, pos, size.value);
      pos := pos + size.value + 2;
      seen := seen + {at};
    }
    FollowUnfolds(data, pos, result, seen);
    return Incomplete;
  }

  lemma {:induction false} FollowWithin(data: bytes, pos: int, body: bytes, seen: set<nat>)
    ensures Follow(data, pos, body, seen).Complete? ==> Follow(data, pos, body, seen).consumed <= |data|
    ensures Follow(data, pos, body, seen) != Negative
    decreases |Unseen(data, seen)|
  {
    hide SizeLine, Find, Unseen;
    if data != [] && pos < |data| && Start(data, pos) !in seen {
      var turn := TurnAt(data, Start(data, pos), body);
      if turn.Go? {
        UnseenShrinks(data, seen, Start(data, pos));
        FollowWithin(data, turn.next, body + turn.piece, seen + {Start(data, pos)});
      }
    }
  }

  /** The scan as long as it meets no negative size. */
  function ScanFrom(data: bytes, pos: nat, body: bytes): (r: Scan)
    ensures r != Hangs
    decreases |data| - pos
  {
    if pos >= |data| then Incomplete
    else
      match SizeLine(data, pos)
      case NoLine => Incomplete
      case BadSize => InvalidSize
      case Size(n, p) =>
        if n == 0 then
          var q := Find(data, BLANK_LINE, p);
          if q == -1 then Incomplete else Complete(body, q + 4)
        else if n < 0 then Negative
        else if p + n + 2 > |data| then Incomplete
        else ScanFrom(data, p + n + 2, body + data[p..p + n])
  }

  /** Whether the scan meets a negative size. */
  predicate Plain(data: bytes) { ScanFrom(data, 0, []) != Negative }

  lemma {:induction false} PlainFollow(data: bytes, pos: nat, body: bytes, seen: set<nat>)
    requires ScanFrom(data, pos, body) != Negative && forall s :: s in seen ==> s < pos
    ensures Follow(data, pos, body, seen) == ScanFrom(data, pos, body)
    decreases |data| - pos
  {
    hide SizeLine, Find, Unseen;
    if pos < |data| && TurnAt(data, pos, body).Go? {
      var Size(n, p) := SizeLine(data, pos);
      PlainFollow(data, p + n + 2, body + data[p..p + n], seen + {pos});
      UnseenShrinks(data, seen, pos);
    }
  }

  /** Without a negative size the loop ends, and a turn is what it seems. */
  lemma {:induction false} PlainScan(data: bytes)
    requires Plain(data)
    ensures ScanChunked(data) == ScanFrom(data, 0, []) && ScanChunked(data) != Hangs
  {
    PlainFollow(data, 0, [], {});
  }

  lemma {:induction false} SizeLineInPrefix(data: bytes, k: nat, pos: nat)
    requires k <= |data| && SizeLine(data, pos).Size?
    ensures SizeLine(data[..k], pos) == if SizeLine(data, pos).next <= k then SizeLine(data, pos) else NoLine
  {
    hide ParseInt16, Find, At;
    FindInPrefix(data, k, CRLF, pos);
    var eol := Find(data, CRLF, pos);
    if eol + 2 <= k { assert data[..k][pos..eol] == data[pos..eol]; }
  }

  /** A complete scan never reads past its end: any extension gives the same answer, any shorter prefix none. */
  lemma {:induction false} ScanOfPrefix(data: bytes, k: nat, pos: nat, body: bytes)
    requires k <= |data| && ScanFrom(data, pos, body).Complete?
    ensures ScanFrom(data, pos, body).consumed <= |data|
    ensures ScanFrom(data[..k], pos, body)
         == if ScanFrom(data, pos, body).consumed <= k then ScanFrom(data, pos, body) else Incomplete
    decreases |data| - pos
  {
    hide SizeLine, Find, At;
    SizeLineInPrefix(data, k, pos);
    var Size(n, p) := SizeLine(data, pos);
    if n == 0 {
      FindInPrefix(data, k, BLANK_LINE, p);
    } else {
      ScanOfPrefix(data, k, p + n + 2, body + data[p..p + n]);
      if p + n + 2 <= k { assert data[..k][p..p + n] == data[p..p + n]; }
    }
  }

  // ---- The line reader ---------------------------------------------------------------------

  /** `readline`: up to and including the next line feed, or all that is left. */
  function LineEnd(stream: bytes, pos: nat): (r: nat)
    requires pos <= |stream|
    ensures pos <= r <= |stream| && (pos < |stream| ==> pos < r)
  {
    var f := Find(stream, [LF], pos);
    if f == -1 then |stream| else f + 1
  }

  /** `Raised`: `readexactly` met the end of the stream or a negative count. */
  datatype LineScan = Read(body: bytes, stopped: nat) | Raised

  function LineScanFrom(stream: bytes, pos: nat, body: bytes): (r: LineScan)
    requires pos <= |stream|
    decreases |stream| - pos
  {
    var next := LineEnd(stream, pos);
    match ParseInt16(Strip(stream[pos..next]))
    case None => Read(body, next)
    case Some(n) =>
      if n == 0 then Read(body, LineEnd(stream, next))
      else if n < -2 || next + n + 2 > |stream| || next == pos then Raised
      else LineScanFrom(stream, next + n + 2, body + if n < 0 then [] else stream[next..next + n])
  }

  lemma {:induction false} LineScanUnfolds(stream: bytes, pos: nat, body: bytes)
    requires pos <= |stream|
    ensures LineScanFrom(stream, pos, body) ==
      var next := LineEnd(stream, pos);
      match ParseInt16(Strip(stream[pos..next]))
      case None => Read(body, next)
      case Some(n) =>
        if n == 0 then Read(body, LineEnd(stream, next))
        else if n < -2 || next + n + 2 > |stream| || next == pos then Raised
        else LineScanFrom(stream, next + n + 2, body + if n < 0 then [] else stream[next..next + n])
  {
    hide ParseInt16, LineEnd, Strip;
  }

  /** `_read_chunked_body` on a stream that ends after `stream`. */
  method ReadChunkedBody(stream: bytes) returns (r: LineScan)
    ensures r == LineScanFrom(stream, 0, [])
  {
    hide ParseInt16, LineEnd, Strip, LineScanFrom;
    NoNumberInNothing();
    var result: bytes := [];
    var pos := 0;
    while true
      invariant 0 <= pos <= |stream|
      invariant LineScanFrom(stream, pos, result) == LineScanFrom(stream, 0, [])
      decreases |stream| - pos
    {
      LineScanUnfolds(stream, pos, result);
      var next := LineEnd(stream, pos);
      var size := ParseInt16(Strip(stream[pos..next]));
      assert next == pos ==> stream[pos..next] == [];
      if size.None? { return Read(result, next); }
      if size.value == 0 { return Read(result, LineEnd(stream, next)); }
      if size.value + 2 < 0 || next + size.value + 2 > |stream| { return Raised; }
      var chunk := stream[next..next + size.value + 2];
      assert size.value >= 0 ==> chunk[..|chunk| - 2] == stream[next..next + size.value];
      result := result + if |chunk| < 2 then [] else chunk[..|chunk| - 2];
      pos := next + size.value + 2;
    }
  }

  lemma {:induction false} NoNumberInNothing()
    ensures ParseInt16(Strip([])) == None
  {
  }

  // ---- The message grammar -------------------------------------------------------------------

  datatype Chunk = Chunk(size: bytes, data: bytes) {
    ghost predicate Valid() { size != [] && AllHex(size) && data != [] && HexValue(size) == |data| }
    function Encode(): bytes { size + CRLF + data + CRLF }
  }

  ghost predicate ValidLast(last: bytes) { last != [] && AllHex(last) && HexValue(last) == 0 }

  ghost predicate ValidTrailer(line: bytes) { line != [] && CR !in line && LF !in line }

  function EncodeChunks(chunks: seq<Chunk>): (r: bytes)
  {
    if chunks == [] then [] else chunks[0].Encode() + EncodeChunks(chunks[1..])
  }

  function Body(chunks: seq<Chunk>): (r: bytes)
  {
    if chunks == [] then [] else chunks[0].data + Body(chunks[1..])
  }

  function EncodeTrailers(lines: seq<bytes>): (r: bytes)
  {
    if lines == [] then [] else lines[0] + CRLF + EncodeTrailers(lines[1..])
  }

  /** chunked-body = *chunk last-chunk trailer-section CRLF */
  function Message(chunks: seq<Chunk>, last: bytes, trailers: seq<bytes>): (r: bytes)
  {
    EncodeChunks(chunks) + (last + CRLF + EncodeTrailers(trailers) + CRLF)
  }

  ghost predicate ValidMessage(chunks: seq<Chunk>, last: bytes, trailers: seq<bytes>) {
    && (forall c :: c in chunks ==> c.Valid())
    && ValidLast(last)
    && (forall t :: t in trailers ==> ValidTrailer(t))
  }

  // ---- Decoding valid messages -------------------------------------------------------------------

  /** A size in the grammar followed by a line end is read as its value. */
  lemma {:induction false} GrammarSizeLine(data: bytes, pos: nat, size: bytes)
    requires size != [] && AllHex(size) && At(data, size, pos) && At(data, CRLF, pos + |size|)
    ensures SizeLine(data, pos) == Size(HexValue(size), pos + |size| + 2)
  {
    hide ParseInt16, HexValue, Find;
    var eol := pos + |size|;
    forall i | pos <= i < eol
      ensures !At(data, CRLF, i)
    {
      AtByte(data, size, pos, i - pos);
      assert IsHex(size[i - pos]);
      AtByte(data, CRLF, i, 0);
    }
    GrammarSizes(size);
  }

  lemma {:induction false} ChunkParts(data: bytes, pos: nat, c: Chunk)
    requires At(data, c.Encode(), pos)
    ensures At(data, c.size, pos) && At(data, CRLF, pos + |c.size|) && At(data, c.data, pos + |c.size| + 2)
    ensures pos + |c.size| + 2 + |c.data| + 2 == pos + |c.Encode()| <= |data|
  {
    hide At;
    AtSplit(data, c.size + CRLF + c.data, CRLF, pos);
    AtSplit(data, c.size + CRLF, c.data, pos);
    AtSplit(data, c.size, CRLF, pos);
    assert At(data, c.Encode(), pos) ==> pos + |c.Encode()| <= |data| by { AtFits(data, c.Encode(), pos); }
  }

  lemma {:induction false} AtFits(s: bytes, piece: bytes, i: int)
    ensures At(s, piece, i) ==> 0 <= i && i + |piece| <= |s| && s[i..i + |piece|] == piece
  {
  }

  lemma {:induction false} ScanOneChunk(data: bytes, pos: nat, c: Chunk, body: bytes)
    requires c.Valid() && At(data, c.Encode(), pos)
    ensures ScanFrom(data, pos, body) == ScanFrom(data, pos + |c.Encode()|, body + c.data)
  {
    hide SizeLine, Find, At, HexValue, AllHex;
    ChunkParts(data, pos, c);
    GrammarSizeLine(data, pos, c.size);
    AtFits(data, c.data, pos + |c.size| + 2);
    var p := pos + |c.size| + 2;
    assert SizeLine(data, pos) == Size(|c.data|, p);
    assert p + |c.data| + 2 == pos + |c.Encode()|;
    assert data[p..p + |c.data|] == c.data;
  }

  /** The scanner passes over any number of chunks, collecting their data. */
  lemma {:induction false} ScanChunks(data: bytes, pos: nat, chunks: seq<Chunk>, body: bytes)
    requires (forall c :: c in chunks ==> c.Valid()) && At(data, EncodeChunks(chunks), pos)
    ensures ScanFrom(data, pos, body) == ScanFrom(data, pos + |EncodeChunks(chunks)|, body + Body(chunks))
    decreases |chunks|
  {
    hide ScanFrom, At;
    if chunks == [] {
      assert body + Body(chunks) == body;
    } else {
      var c, rest := chunks[0], chunks[1..];
      AtSplit(data, c.Encode(), EncodeChunks(rest), pos);
      ScanOneChunk(data, pos, c, body);
      ScanChunks(data, pos + |c.Encode()|, rest, body + c.data);
      assert body + c.data + Body(rest) == body + Body(chunks);
    }
  }

  /** Where the parts of a message lie in any data that starts with it. */
  lemma {:induction false} MessageParts(chunks: seq<Chunk>, last: bytes, trailers: seq<bytes>, rest: bytes)
    ensures var data := Message(chunks, last, trailers) + rest;
      var a := |EncodeChunks(chunks)|;
      && At(data, EncodeChunks(chunks), 0)
      && At(data, last, a) && At(data, CRLF, a + |last|)
      && At(data, EncodeTrailers(trailers) + CRLF, a + |last| + 2)
      && |Message(chunks, last, trailers)| == a + |last| + 2 + |EncodeTrailers(trailers)| + 2
  {
    hide At, EncodeChunks, EncodeTrailers;
    var m, t := EncodeChunks(chunks), EncodeTrailers(trailers);
    var data := Message(chunks, last, trailers) + rest;
    AtFront(Message(chunks, last, trailers), rest);
    AtSplit(data, m, last + CRLF + t + CRLF, 0);
    assert last + CRLF + t + CRLF == last + (CRLF + (t + CRLF));
    AtSplit(data, last, CRLF + (t + CRLF), |m|);
    AtSplit(data, CRLF, t + CRLF, |m| + |last|);
  }

  /** In a trailer section every carriage return opens a line end, and no two line ends are adjacent. */
  lemma {:induction false} TrailersHaveNoBlank(lines: seq<bytes>, i: nat)
    requires forall t :: t in lines ==> ValidTrailer(t)
    requires i < |EncodeTrailers(lines)| && EncodeTrailers(lines)[i] == CR
    ensures i + 1 < |EncodeTrailers(lines)|
    ensures i + 2 < |EncodeTrailers(lines)| ==> EncodeTrailers(lines)[i + 2] != CR
    decreases |lines|
  {
    var line, rest := lines[0], lines[1..];
    var skip := |line| + 2;
    assert EncodeTrailers(lines)[skip..] == EncodeTrailers(rest);
    if i >= skip {
      TrailersHaveNoBlank(rest, i - skip);
    } else {
      assert ValidTrailer(line);
      assert forall j :: 0 <= j < |line| ==> line[j] in line;
      assert forall j :: 0 <= j < |line| ==> EncodeTrailers(lines)[j] == line[j];
      assert i == |line|;
      if rest != [] {
        assert rest[0] in lines && rest[0][0] in rest[0];
        assert EncodeTrailers(rest)[0] == rest[0][0];
      }
    }
  }

  lemma {:induction false} TrailersEndLine(lines: seq<bytes>)
    requires lines != []
    ensures |EncodeTrailers(lines)| >= 2 && EncodeTrailers(lines)[|EncodeTrailers(lines)| - 2..] == CRLF
    decreases |lines|
  {
    if |lines| > 1 { TrailersEndLine(lines[1..]); }
    else { assert EncodeTrailers(lines[1..]) == []; }
  }

  /** After the last chunk's line, the blank line that ends the scan is the one that ends the trailer section. */
  lemma {:induction false} FindsTrailerEnd(data: bytes, pos: nat, trailers: seq<bytes>)
    requires trailers != [] && forall t :: t in trailers ==> ValidTrailer(t)
    requires At(data, EncodeTrailers(trailers) + CRLF, pos)
    ensures Find(data, BLANK_LINE, pos) == pos + |EncodeTrailers(trailers)| - 2
  {
    hide EncodeTrailers;
    var t := EncodeTrailers(trailers);
    var end := pos + |t| - 2;
    TrailersEndLine(trailers);
    assert t + CRLF == t[..|t| - 2] + BLANK_LINE;
    AtSplit(data, t[..|t| - 2], BLANK_LINE, pos);
    forall i | pos <= i < end
      ensures !At(data, BLANK_LINE, i)
    {
      AtByte(data, t + CRLF, pos, i - pos);
      AtByte(data, t + CRLF, pos, i + 2 - pos);
      AtByte(data, BLANK_LINE, i, 0);
      AtByte(data, BLANK_LINE, i, 2);
      if t[i - pos] == CR { TrailersHaveNoBlank(trailers, i - pos); }
    }
  }

  /** Whatever follows, a valid message with a trailer is decoded to the concatenated chunks and its exact length. */
  lemma {:induction false} DecodesWithTrailer(chunks: seq<Chunk>, last: bytes, trailers: seq<bytes>, rest: bytes)
    requires ValidMessage(chunks, last, trailers) && trailers != []
    ensures ScanFrom(Message(chunks, last, trailers) + rest, 0, [])
         == Complete(Body(chunks), |Message(chunks, last, trailers)|)
    ensures ScanChunked(Message(chunks, last, trailers) + rest)
         == Complete(Body(chunks), |Message(chunks, last, trailers)|)
  {
    hide SizeLine, Find, At, EncodeTrailers, EncodeChunks;
    var data := Message(chunks, last, trailers) + rest;
    var a := |EncodeChunks(chunks)|;
    MessageParts(chunks, last, trailers, rest);
    ScanChunks(data, 0, chunks, []);
    assert [] + Body(chunks) == Body(chunks);
    GrammarSizeLine(data, a, last);
    FindsTrailerEnd(data, a + |last| + 2, trailers);
    PlainScan(data);
  }

  /** Without a trailer the scanner never ends at the message's end, whatever follows: it either waits for more or
      swallows bytes that come after the message. */
  lemma {:induction false} MissesBareEnd(chunks: seq<Chunk>, last: bytes, rest: bytes)
    requires ValidMessage(chunks, last, [])
    ensures var r := ScanChunked(Message(chunks, last, []) + rest);
      r == Incomplete || (r.Complete? && r.consumed > |Message(chunks, last, [])|)
    ensures rest == [] ==> ScanChunked(Message(chunks, last, []) + rest) == Incomplete
  {
    hide SizeLine, At, Find, EncodeChunks;
    var data := Message(chunks, last, []) + rest;
    var a := |EncodeChunks(chunks)|;
    MessageParts(chunks, last, [], rest);
    ScanChunks(data, 0, chunks, []);
    assert [] + Body(chunks) == Body(chunks);
    GrammarSizeLine(data, a, last);
    PlainScan(data);
  }

  /** The request parser's scanner recognises exactly the valid messages that carry a trailer. */
  lemma {:induction false} CompletesExactlyWithTrailer(chunks: seq<Chunk>, last: bytes, trailers: seq<bytes>,
                                                       rest: bytes)
    requires ValidMessage(chunks, last, trailers)
    ensures var m := Message(chunks, last, trailers);
      ScanChunked(m + rest) == Complete(Body(chunks), |m|) <==> trailers != []
  {
    if trailers != [] { DecodesWithTrailer(chunks, last, trailers, rest); }
    else { MissesBareEnd(chunks, last, rest); }
  }

  /** Every strict prefix of such a message is reported incomplete. */
  lemma {:induction false} PrefixesIncomplete(chunks: seq<Chunk>, last: bytes, trailers: seq<bytes>, k: nat)
    requires ValidMessage(chunks, last, trailers) && trailers != [] && k < |Message(chunks, last, trailers)|
    ensures ScanChunked(Message(chunks, last, trailers)[..k]) == Incomplete
  {
    hide ScanFrom, ScanChunked;
    var m := Message(chunks, last, trailers);
    assert m + [] == m;
    DecodesWithTrailer(chunks, last, trailers, []);
    ScanOfPrefix(m, k, 0, []);
    PlainScan(m[..k]);
  }

  // ---- Agreement with the line reader ----------------------------------------------------------------

  lemma {:induction false} GrammarLine(stream: bytes, pos: nat, line: bytes)
    requires LF !in line && At(stream, line, pos) && At(stream, CRLF, pos + |line|)
    ensures LineEnd(stream, pos) == pos + |line| + 2
  {
    var f := pos + |line| + 1;
    AtByte(stream, CRLF, pos + |line|, 0);
    AtByte(stream, CRLF, pos + |line|, 1);
    assert stream[f..f + 1] == [LF];
    assert At(stream, [LF], f);
    forall i | pos <= i < f
      ensures !At(stream, [LF], i)
    {
      if i < pos + |line| {
        AtByte(stream, line, pos, i - pos);
        assert line[i - pos] in line;
      }
      AtByte(stream, [LF], i, 0);
    }
  }

  lemma {:induction false} HexHasNoLineFeed(s: bytes)
    requires AllHex(s)
    ensures LF !in s
  {
    assert forall i :: 0 <= i < |s| ==> IsHex(s[i]) && s[i] != LF;
  }

  lemma {:induction false} LineScanChunks(data: bytes, pos: nat, chunks: seq<Chunk>, body: bytes)
    requires pos <= |data| && (forall c :: c in chunks ==> c.Valid()) && At(data, EncodeChunks(chunks), pos)
    ensures pos + |EncodeChunks(chunks)| <= |data|
    ensures LineScanFrom(data, pos, body) == LineScanFrom(data, pos + |EncodeChunks(chunks)|, body + Body(chunks))
    decreases |chunks|
  {
    hide LineScanFrom, At;
    AtFits(data, EncodeChunks(chunks), pos);
    if chunks == [] {
      assert body + Body(chunks) == body;
    } else {
      var c, rest := chunks[0], chunks[1..];
      AtSplit(data, c.Encode(), EncodeChunks(rest), pos);
      LineScanOneChunk(data, pos, c, body);
      LineScanChunks(data, pos + |c.Encode()|, rest, body + c.data);
      assert body + c.data + Body(rest) == body + Body(chunks);
    }
  }

  lemma {:induction false} LineScanOneChunk(data: bytes, pos: nat, c: Chunk, body: bytes)
    requires pos <= |data| && c.Valid() && At(data, c.Encode(), pos)
    ensures pos + |c.Encode()| <= |data|
    ensures LineScanFrom(data, pos, body) == LineScanFrom(data, pos + |c.Encode()|, body + c.data)
  {
    hide LineEnd, ParseInt16, Strip, At, HexValue, AllHex;
    ChunkParts(data, pos, c);
    HexHasNoLineFeed(c.size);
    GrammarLine(data, pos, c.size);
    GrammarSizes(c.size);
    AtSplit(data, c.size, CRLF, pos);
    AtFits(data, c.size + CRLF, pos);
    AtFits(data, c.data, pos + |c.size| + 2);
    var p := pos + |c.size| + 2;
    assert data[pos..p] == c.size + CRLF;
    assert p + |c.data| + 2 == pos + |c.Encode()|;
  }

  /** The line reader decodes every valid message to the same body, and consumes the whole message exactly when
      there is no trailer: the two decoders complete on complementary inputs. */
  lemma {:induction false} LineReaderAgrees(chunks: seq<Chunk>, last: bytes, trailers: seq<bytes>, rest: bytes)
    requires ValidMessage(chunks, last, trailers)
    ensures var r := LineScanFrom(Message(chunks, last, trailers) + rest, 0, []);
      && r.Read? && r.body == Body(chunks)
      && (r.stopped == |Message(chunks, last, trailers)| <==> trailers == [])
  {
    hide LineScanFrom, EncodeChunks, EncodeTrailers, At;
    var data := Message(chunks, last, trailers) + rest;
    var a := |EncodeChunks(chunks)|;
    MessageParts(chunks, last, trailers, rest);
    LineScanChunks(data, 0, chunks, []);
    assert [] + Body(chunks) == Body(chunks);
    var line, after := FirstLine(trailers);
    AtSplit(data, line + CRLF, after, a + |last| + 2);
    AtSplit(data, line, CRLF, a + |last| + 2);
    LineScanLast(data, a, last, line, Body(chunks));
  }

  /** The line that follows the last chunk: the first trailer, or the empty line that ends the message. */
  lemma {:induction false} FirstLine(trailers: seq<bytes>) returns (line: bytes, after: bytes)
    requires forall t :: t in trailers ==> ValidTrailer(t)
    ensures EncodeTrailers(trailers) + CRLF == line + CRLF + after
    ensures LF !in line && (after == [] <==> trailers == [])
  {
    if trailers == [] {
      line, after := [], [];
    } else {
      assert ValidTrailer(trailers[0]);
      line, after := trailers[0], EncodeTrailers(trailers[1..]) + CRLF;
    }
  }

  lemma {:induction false} LineScanLast(data: bytes, pos: nat, last: bytes, line: bytes, body: bytes)
    requires pos <= |data| && ValidLast(last) && LF !in line
    requires At(data, last, pos) && At(data, CRLF, pos + |last|)
    requires At(data, line, pos + |last| + 2) && At(data, CRLF, pos + |last| + 2 + |line|)
    ensures LineScanFrom(data, pos, body) == Read(body, pos + |last| + 2 + |line| + 2)
  {
    hide LineEnd, ParseInt16, Strip, At, HexValue, AllHex;
    HexHasNoLineFeed(last);
    GrammarLine(data, pos, last);
    GrammarSizes(last);
    AtSplit(data, last, CRLF, pos);
    AtFits(data, last + CRLF, pos);
    GrammarLine(data, pos + |last| + 2, line);
  }

  // ---- Negative sizes ---------------------------------------------------------------------------------

  /** The position after `k` turns from `pos`; None once the loop has ended. */
  function PositionAfter(data: bytes, pos: int, k: nat): (r: Option<int>)
    decreases k
  {
    if data == [] || pos >= |data| then None
    else if k == 0 then Some(pos)
    else
      match TurnAt(data, Start(data, pos), [])
      case Answer(_) => None
      case Go(next, _) => PositionAfter(data, next, k - 1)
  }

  ghost predicate Endless(data: bytes, pos: int) { forall k: nat :: PositionAfter(data, pos, k).Some? }

  /** The answer `Hangs` means what it says: the loop goes on for ever if and only if the scan reports it. */
  lemma {:induction false} HangsExactly(data: bytes)
    ensures ScanChunked(data) == Hangs <==> Endless(data, 0)
  {
    hide Follow, PositionAfter;
    if ScanChunked(data) == Hangs { HangingIsEndless(data, 0, [], {}); }
    else { AnswerIsEnd(data, 0, [], {}); }
  }

  /** Whether a turn ends the loop, and where it goes, does not depend on the body collected so far. */
  lemma {:induction false} TurnIgnoresBody(data: bytes, at: nat, body: bytes)
    ensures var a, b := TurnAt(data, at, body), TurnAt(data, at, []);
      (a.Go? <==> b.Go?) && (a.Go? ==> a == b) && (a.Answer? ==> a.answer != Hangs)
  {
    hide Find, SizeLine;
  }

  lemma {:induction false} AnswerIsEnd(data: bytes, pos: int, body: bytes, seen: set<nat>)
    requires Follow(data, pos, body, seen) != Hangs
    ensures exists k: nat :: PositionAfter(data, pos, k).None?
    decreases |Unseen(data, seen)|
  {
    hide TurnAt, Unseen;
    if data == [] || pos >= |data| {
      assert PositionAfter(data, pos, 0).None?;
    } else {
      var at := Start(data, pos);
      TurnIgnoresBody(data, at, body);
      match TurnAt(data, at, body) {
        case Answer(_) => assert PositionAfter(data, pos, 1).None?;
        case Go(next, piece) =>
          UnseenShrinks(data, seen, at);
          AnswerIsEnd(data, next, body + piece, seen + {at});
          var k: nat :| PositionAfter(data, next, k).None?;
          assert PositionAfter(data, pos, k + 1).None?;
      }
    }
  }

  /** Going on `j` turns and then `k` is going on `j + k`. */
  lemma {:induction false} PositionsAdd(data: bytes, pos: int, j: nat, k: nat)
    requires PositionAfter(data, pos, j).Some?
    ensures PositionAfter(data, pos, j + k) == PositionAfter(data, PositionAfter(data, pos, j).value, k)
    decreases j
  {
    hide TurnAt;
    if j > 0 {
      PositionsAdd(data, TurnAt(data, Start(data, pos), []).next, j - 1, k);
    }
  }

  /** Only the effective position matters. */
  lemma {:induction false} SameStart(data: bytes, a: int, b: int, k: nat)
    requires data != [] && a < |data| && b < |data| && Start(data, a) == Start(data, b)
    ensures PositionAfter(data, a, k).Some? <==> PositionAfter(data, b, k).Some?
  {
  }

  /** A loop that comes back to a position goes on for ever. */
  lemma {:induction false} CycleIsEndless(data: bytes, pos: int, j: nat, k: nat)
    requires data != [] && pos < |data| && j > 0 && PositionAfter(data, pos, j).Some?
    requires var back := PositionAfter(data, pos, j).value; back < |data| && Start(data, back) == Start(data, pos)
    ensures PositionAfter(data, pos, k).Some?
    decreases k
  {
    hide PositionAfter, Start;
    var back := PositionAfter(data, pos, j).value;
    if k <= j {
      EarlierPositions(data, pos, k, j - k);
    } else {
      CycleIsEndless(data, pos, j, k - j);
      SameStart(data, pos, back, k - j);
      PositionsAdd(data, pos, j, k - j);
    }
  }

  lemma {:induction false} EarlierPositions(data: bytes, pos: int, k: nat, more: nat)
    requires PositionAfter(data, pos, k + more).Some?
    ensures PositionAfter(data, pos, k).Some?
    decreases k
  {
    hide TurnAt;
    if k > 0 { EarlierPositions(data, TurnAt(data, Start(data, pos), []).next, k - 1, more); }
  }

  /** `pos` is reached from every position seen. */
  ghost predicate ReachedFrom(data: bytes, seen: set<nat>, pos: int) {
    forall s :: s in seen ==> s < |data| && exists j: nat :: j > 0 && PositionAfter(data, s, j) == Some(pos)
  }

  lemma {:induction false} StillReached(data: bytes, seen: set<nat>, pos: int, next: int)
    requires data != [] && pos < |data| && next < |data| && ReachedFrom(data, seen, pos)
    requires TurnAt(data, Start(data, pos), []).Go? && TurnAt(data, Start(data, pos), []).next == next
    ensures ReachedFrom(data, seen + {Start(data, pos)}, next)
  {
    hide TurnAt;
    var at := Start(data, pos);
    assert PositionAfter(data, pos, 1) == PositionAfter(data, next, 0) == Some(next);
    assert PositionAfter(data, at, 1) == PositionAfter(data, next, 0) == Some(next);
    forall s | s in seen ensures exists j: nat :: j > 0 && PositionAfter(data, s, j) == Some(next) {
      var j: nat :| j > 0 && PositionAfter(data, s, j) == Some(pos);
      PositionsAdd(data, s, j, 1);
      assert PositionAfter(data, s, j + 1) == Some(next);
    }
  }

  lemma {:induction false} HangingIsEndless(data: bytes, pos: int, body: bytes, seen: set<nat>)
    requires Follow(data, pos, body, seen) == Hangs && ReachedFrom(data, seen, pos)
    ensures Endless(data, pos)
    decreases |Unseen(data, seen)|
  {
    hide TurnAt, Unseen;
    var at := Start(data, pos);
    if at in seen {
      var j: nat :| j > 0 && PositionAfter(data, at, j) == Some(pos);
      forall k: nat ensures PositionAfter(data, pos, k).Some? {
        CycleIsEndless(data, at, j, k);
        SameStart(data, at, pos, k);
      }
    } else {
      TurnIgnoresBody(data, at, body);
      var Go(next, piece) := TurnAt(data, at, body);
      UnseenShrinks(data, seen, at);
      StillReached(data, seen, pos, next);
      HangingIsEndless(data, next, body + piece, seen + {at});
      forall k: nat ensures PositionAfter(data, pos, k).Some? {
        if k > 0 { assert PositionAfter(data, next, k - 1).Some?; }
      }
    }
  }

  /** A turn fails to advance if and only if its size is negative by at least the length of its line and four more,
      and it stays where it is, so that the loop never ends, if and only if it is so by exactly that. */
  lemma {:induction false} RetreatsExactly(data: bytes, at: nat, body: bytes)
    requires at < |data| && TurnAt(data, at, body).Go?
    ensures var Size(n, p) := SizeLine(data, at);
      var line := p - 2 - at;
      var next := TurnAt(data, at, body).next;
      && (next <= at <==> n <= -(line + 4))
      && (next == at <==> n == -(line + 4))
      && (next == at ==> Endless(data, at))
      && (n < 0 && p + n >= 0 ==> TurnAt(data, at, body).piece == [])
  {
    TurnIgnoresBody(data, at, body);
    var next := TurnAt(data, at, body).next;
    if next == at {
      assert PositionAfter(data, at, 1) == PositionAfter(data, at, 0) == Some(at);
      forall k: nat ensures PositionAfter(data, at, k).Some? { CycleIsEndless(data, at, 1, k); }
    }
  }

  /** `int` accepts a sign. */
  lemma {:induction false} SignedSizes(s: bytes)
    requires AllHex(s) && s != []
    ensures var v: int := HexValue(s); ParseInt16([45] + s) == Some(-v)
  {
    hide HexValue, HexNumber;
    var t := [45] + s;
    assert t[|t| - 1] == s[|s| - 1] && LeftStrip(t) == t && RightStrip(t) == t;
    assert t[1..] == s;
    HexNumberIsValue(s);
  }

  lemma {:induction false} SignedSizeLine(data: bytes, pos: nat, size: bytes)
    requires size != [] && AllHex(size) && At(data, [45] + size, pos) && At(data, CRLF, pos + 1 + |size|)
    ensures var v: int := HexValue(size); SizeLine(data, pos) == Size(-v, pos + |size| + 3)
  {
    hide ParseInt16, HexValue, Find;
    var line := [45] + size;
    forall i | pos <= i < pos + |line|
      ensures !At(data, CRLF, i)
    {
      AtByte(data, line, pos, i - pos);
      assert i > pos ==> IsHex(size[i - pos - 1]);
      AtByte(data, CRLF, i, 0);
    }
    SignedSizes(size);
  }

  /** A negative size line whose value is five more than its digits are many stands still, wherever it is met. */
  lemma {:induction false} StandsStill(data: bytes, pos: nat, size: bytes)
    requires size != [] && AllHex(size) && HexValue(size) == |size| + 5
    requires At(data, [45] + size, pos) && At(data, CRLF, pos + 1 + |size|)
    ensures Endless(data, pos)
  {
    SignedSizeLine(data, pos, size);
    hide SizeLine, Find, HexValue;
    RetreatsExactly(data, pos, []);
  }

  lemma {:induction false} EndlessBefore(data: bytes, pos: nat, next: nat)
    requires pos < |data| && TurnAt(data, pos, []).Go? && TurnAt(data, pos, []).next == next && Endless(data, next)
    ensures Endless(data, pos)
  {
    hide TurnAt;
    forall k: nat ensures PositionAfter(data, pos, k).Some? {
      if k > 0 { assert PositionAfter(data, next, k - 1).Some?; }
    }
  }

  /** Valid chunks in front lead the loop to what follows them. */
  lemma {:induction false} EndlessAfterChunks(data: bytes, pos: nat, chunks: seq<Chunk>)
    requires (forall c :: c in chunks ==> c.Valid()) && At(data, EncodeChunks(chunks), pos)
    requires Endless(data, pos + |EncodeChunks(chunks)|)
    ensures Endless(data, pos)
    decreases |chunks|
  {
    hide At, Endless, TurnAt;
    if chunks != [] {
      var c, rest := chunks[0], chunks[1..];
      AtSplit(data, c.Encode(), EncodeChunks(rest), pos);
      EndlessAfterChunks(data, pos + |c.Encode()|, rest);
      ChunkTurn(data, pos, c);
      EndlessBefore(data, pos, pos + |c.Encode()|);
    }
  }

  lemma {:induction false} ChunkTurn(data: bytes, pos: nat, c: Chunk)
    requires c.Valid() && At(data, c.Encode(), pos)
    ensures pos < |data| && TurnAt(data, pos, []) == Go(pos + |c.Encode()|, c.data)
  {
    hide SizeLine, Find, At, HexValue, AllHex;
    ChunkParts(data, pos, c);
    GrammarSizeLine(data, pos, c.size);
    AtFits(data, c.data, pos + |c.size| + 2);
  }

  /** So such a line, of which "-6" is the shortest, hangs the parser whatever valid chunks precede it and whatever
      follows. */
  lemma {:induction false} NegativeSizeLoops(chunks: seq<Chunk>, size: bytes, rest: bytes)
    requires forall c :: c in chunks ==> c.Valid()
    requires size != [] && AllHex(size) && HexValue(size) == |size| + 5
    ensures ScanChunked(EncodeChunks(chunks) + ([45] + size + CRLF + rest)) == Hangs
  {
    hide At, Endless, ScanChunked, HexValue, EncodeChunks;
    var front, line := EncodeChunks(chunks), [45] + size;
    var data := front + (line + CRLF + rest);
    AtFront(front, line + CRLF + rest);
    AtBack(front, line + CRLF + rest);
    assert line + CRLF + rest == line + (CRLF + rest);
    AtSplit(data, line, CRLF + rest, |front|);
    AtSplit(data, CRLF, rest, |front| + |line|);
    StandsStill(data, |front|, size);
    EndlessAfterChunks(data, 0, chunks);
    HangsExactly(data);
  }

  /** With a negative size the cut matters. Let the size line ask to go back past the start by as many bytes as the
      end of a valid message has, as "-E" does before "0", a one-letter trailer and the blank line: the whole input
      completes, while its first line alone makes the loop endless. */
  lemma {:induction false} NegativeSizeDependsOnCut(size: bytes, last: bytes, trailers: seq<bytes>)
    requires size != [] && AllHex(size) && ValidMessage([], last, trailers) && trailers != []
    requires var tail := last + CRLF + (EncodeTrailers(trailers) + CRLF);
      |tail| >= |size| + 3 && HexValue(size) == |size| + 5 + |tail|
    ensures var line := [45] + size + CRLF;
      var tail := last + CRLF + (EncodeTrailers(trailers) + CRLF);
      ScanChunked(line) == Hangs && ScanChunked(line + tail) == Complete([], |line + tail|)
  {
    var line := [45] + size + CRLF;
    var tail := last + CRLF + (EncodeTrailers(trailers) + CRLF);
    SignedLineAhead(size, []);
    SignedLineAhead(size, tail);
    TailEnds(line, last, trailers);
    assert line + [] == line;
    hide SizeLine, Find, ScanChunked, HexValue, EncodeTrailers, TurnAt;
    BackToStart(line);
    BackToTail(line + tail, |line|);
  }

  lemma {:induction false} BackToStart(line: bytes)
    requires SizeLine(line, 0).Size? && SizeLine(line, 0).next + SizeLine(line, 0).n + 2 <= -|line|
    ensures ScanChunked(line) == Hangs
  {
    var next := SizeLine(line, 0).next + SizeLine(line, 0).n + 2;
    FollowUnfolds(line, 0, [], {});
    FollowUnfolds(line, next, [], {0});
    hide SizeLine, Find, Follow;
    assert TurnAt(line, 0, []) == Go(next, []);
  }

  lemma {:induction false} BackToTail(data: bytes, p: nat)
    requires 0 < p < |data| && SizeLine(data, 0) == Size(-|data| - 2, p) && TurnAt(data, p, []).Answer?
    ensures ScanChunked(data) == TurnAt(data, p, []).answer
  {
    FollowUnfolds(data, 0, [], {});
    FollowUnfolds(data, p - |data|, [], {0});
    hide SizeLine, Find, Follow;
    assert TurnAt(data, 0, []) == Go(p - |data|, []);
  }

  lemma {:induction false} SignedLineAhead(size: bytes, tail: bytes)
    requires size != [] && AllHex(size)
    ensures var v: int := HexValue(size); SizeLine([45] + size + CRLF + tail, 0) == Size(-v, |size| + 3)
  {
    var data := [45] + size + CRLF + tail;
    assert data[0..1 + |size|] == [45] + size && data[1 + |size|..3 + |size|] == CRLF;
    SignedSizeLine(data, 0, size);
  }

  /** The turn at the last chunk ends the scan behind its trailer section. */
  lemma {:induction false} TailEnds(line: bytes, last: bytes, trailers: seq<bytes>)
    requires ValidMessage([], last, trailers) && trailers != []
    ensures var data := line + (last + CRLF + (EncodeTrailers(trailers) + CRLF));
      TurnAt(data, |line|, []) == Answer(Complete([], |data|))
  {
    hide SizeLine, Find, At, EncodeTrailers;
    var t := EncodeTrailers(trailers) + CRLF;
    var data := line + (last + CRLF + t);
    assert At(data, last + CRLF + t, |line|) by { AtBack(line, last + CRLF + t); }
    AtSplit(data, last + CRLF, t, |line|);
    AtSplit(data, last, CRLF, |line|);
    GrammarSizeLine(data, |line|, last);
    FindsTrailerEnd(data, |line| + |last| + 2, trailers);
  }

  lemma {:induction false} AtBack(s: bytes, rest: bytes)
    ensures At(s + rest, rest, |s|)
  {
    assert (s + rest)[|s|..|s| + |rest|] == rest;
  }
}
