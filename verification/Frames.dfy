/** The data-plane frame codec (common/frame.py). */
module Frames {
  import opened Bytes

  const FRAME_VERSION: byte := 1
  const FRAME_DATA: byte := 1
  const FRAME_PUNCH: byte := 2
  const FRAME_KEEPALIVE: byte := 3
  const FRAME_CLOSE: byte := 4
  const FRAME_PUNCH_ACK: byte := 6
  const HEADER_SIZE := 8
  const TAG_SIZE := 16
  const MAX_PAYLOAD := 65535
  const SEQ_MODULUS := 0x1_0000_0000

  datatype FrameError = TooShort | BadVersion | Truncated | TooLarge | BadTag

  datatype Result<+T> = Ok(value: T) | Err(error: FrameError)

  /** What `unpack_frame` returns: the header fields that are not implied, payload and tag. */
  datatype Frame = Frame(kind: byte, seqNum: nat, payload: bytes, tag: bytes)

  function ZeroTag(): (t: bytes)
    ensures |t| == 16 && forall i :: 0 <= i < 16 ==> t[i] == 0
  {
    seq(TAG_SIZE, _ => 0)
  }

  /** `struct.Struct("!BBHI")`: version, type, payload length, sequence number. */
  function Header(kind: byte, length: nat, seqNum: nat): (h: bytes)
    requires length <= MAX_PAYLOAD && seqNum < SEQ_MODULUS
    ensures |h| == HEADER_SIZE
    ensures h[0] == FRAME_VERSION && h[1] == kind
    ensures h[2..4] == BigEndian(2, length)
    ensures h[4..8] == BigEndian(4, seqNum)
  {
    [FRAME_VERSION, kind] + BigEndian(2, length) + BigEndian(4, seqNum)
  }

  function PackFrame(kind: byte, payload: bytes, seqNum: int, version: byte, tag: Option<bytes>): (r: Result<bytes>)
    ensures r.Ok? <==> |payload| <= MAX_PAYLOAD && version == FRAME_VERSION && (tag.Some? ==> |tag.value| == TAG_SIZE)
    ensures r.Ok? ==> |r.value| == HEADER_SIZE + |payload| + TAG_SIZE
  {
    var t := if tag.Some? then tag.value else ZeroTag();
    if |payload| > MAX_PAYLOAD then Err(TooLarge)
    else if version != FRAME_VERSION then Err(BadVersion)
    else if |t| != TAG_SIZE then Err(BadTag)
    else Ok(Header(kind, |payload|, seqNum % SEQ_MODULUS) + payload + t)
  }

  function UnpackFrame(data: bytes): (r: Result<Frame>)
  {
    if |data| < HEADER_SIZE + TAG_SIZE then Err(TooShort)
    else if data[0] != FRAME_VERSION then Err(BadVersion)
    else
      var length := FromBigEndian(data[2..4]);
      var end := HEADER_SIZE + length;
      if |data| < end + TAG_SIZE then Err(Truncated)
      else Ok(Frame(data[1], FromBigEndian(data[4..8]), data[HEADER_SIZE..end], data[end..end + TAG_SIZE]))
  }

  /** A buffer is accepted if and only if it is long enough for a header and a tag, opens with version 1 and holds the
      payload its third and fourth byte announce; otherwise the first of these tests that fails is reported. */
  lemma {:induction false} AcceptsExactly(data: bytes)
    ensures var r := UnpackFrame(data);
      var announced := if |data| < 24 then 0 else 256 * (data[2] as int) + data[3] as int;
      && (r == Err(TooShort) <==> |data| < 24)
      && (r == Err(BadVersion) <==> |data| >= 24 && data[0] != 1)
      && (r == Err(Truncated) <==> |data| >= 24 && data[0] == 1 && |data| < 24 + announced)
      && (r.Ok? <==> |data| >= 24 && data[0] == 1 && |data| >= 24 + announced)
  {
    if |data| >= 24 {
      assert data[2..4] == [data[2]] + [data[3]];
      LeadingByte(data[2], [data[3]]);
      LeadingByte(data[3], []);
      assert [data[3]] + [] == [data[3]] && Pow256(1) == 256 && Pow256(0) == 1;
    }
  }

  /** Every packed frame is read back field for field, whatever bytes follow it. */
  lemma {:induction false} UnpackPacked(kind: byte, payload: bytes, seqNum: int, tag: Option<bytes>, rest: bytes)
    requires PackFrame(kind, payload, seqNum, FRAME_VERSION, tag).Ok?
    ensures UnpackFrame(PackFrame(kind, payload, seqNum, FRAME_VERSION, tag).value + rest)
         == Ok(Frame(kind, seqNum % SEQ_MODULUS, payload, if tag.Some? then tag.value else ZeroTag()))
  {
    hide Header, BigEndian, FromBigEndian;
    var t := if tag.Some? then tag.value else ZeroTag();
    var h := Header(kind, |payload|, seqNum % SEQ_MODULUS);
    var d := PackFrame(kind, payload, seqNum, FRAME_VERSION, tag).value + rest;
    assert d[2..4] == h[2..4] && d[4..8] == h[4..8];
    assert d[HEADER_SIZE..HEADER_SIZE + |payload|] == payload;
    assert d[HEADER_SIZE + |payload|..HEADER_SIZE + |payload| + TAG_SIZE] == t;
  }

  /** Eight bytes that open with the version byte are the header of the numbers they spell. */
  lemma {:induction false} HeaderOfBytes(h: bytes)
    requires |h| == HEADER_SIZE && h[0] == FRAME_VERSION
    ensures FromBigEndian(h[2..4]) <= MAX_PAYLOAD && FromBigEndian(h[4..8]) < SEQ_MODULUS
    ensures Header(h[1], FromBigEndian(h[2..4]), FromBigEndian(h[4..8])) == h
  {
    assert Pow256(2) == 65536 && Pow256(4) == SEQ_MODULUS;
    hide Pow256, FromBigEndian, BigEndian;
    BigEndianOfValue(h[2..4]);
    BigEndianOfValue(h[4..8]);
    assert h == [h[0], h[1]] + h[2..4] + h[4..8];
  }

  /** Whatever buffer is accepted, re-packing the result reproduces the buffer's own leading bytes. */
  lemma {:induction false} PackUnpacked(data: bytes)
    requires UnpackFrame(data).Ok?
    ensures var f := UnpackFrame(data).value;
      var size := HEADER_SIZE + |f.payload| + TAG_SIZE;
      && size <= |data|
      && f.seqNum < SEQ_MODULUS
      && PackFrame(f.kind, f.payload, f.seqNum, FRAME_VERSION, Some(f.tag)) == Ok(data[..size])
  {
    hide Header, BigEndian, FromBigEndian;
    var h := data[..HEADER_SIZE];
    assert h[2..4] == data[2..4] && h[4..8] == data[4..8];
    HeaderOfBytes(h);
    var end := HEADER_SIZE + FromBigEndian(data[2..4]);
    assert data[..end + TAG_SIZE] == h + data[HEADER_SIZE..end] + data[end..end + TAG_SIZE];
  }

  function PunchFrame(payload: bytes): (w: bytes)
    requires |payload| <= MAX_PAYLOAD
    ensures UnpackFrame(w) == Ok(Frame(FRAME_PUNCH, 0, payload, ZeroTag()))
  {
    UnpackPacked(FRAME_PUNCH, payload, 0, None, []);
    var packed := PackFrame(FRAME_PUNCH, payload, 0, FRAME_VERSION, None).value;
    assert packed + [] == packed;
    PackFrame(FRAME_PUNCH, payload, 0, FRAME_VERSION, None).value
  }

  function PunchAckFrame(payload: bytes): (w: bytes)
    requires |payload| <= MAX_PAYLOAD
    ensures UnpackFrame(w) == Ok(Frame(FRAME_PUNCH_ACK, 0, payload, ZeroTag()))
  {
    UnpackPacked(FRAME_PUNCH_ACK, payload, 0, None, []);
    var packed := PackFrame(FRAME_PUNCH_ACK, payload, 0, FRAME_VERSION, None).value;
    assert packed + [] == packed;
    PackFrame(FRAME_PUNCH_ACK, payload, 0, FRAME_VERSION, None).value
  }
}
