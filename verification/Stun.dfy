/** The STUN attribute walk (client/nat_traversal.py), against sections 6, 15 and 15.2 of RFC 5389. */
module Stun {
  import opened Bytes

  const MAGIC: bytes := [0x21, 0x12, 0xA4, 0x42]
  const MAGIC_HIGH := 0x2112
  const XOR_MAPPED_ADDRESS := 0x0020

  /** `ShortValue` stands for the IndexError, struct.error or OSError of a value too short for its fields. */
  datatype Outcome =
    | TooShort | WrongTransaction | NoAddress | Ipv6Unsupported | ShortValue | Mapped(ip: bytes, port: nat)

  function XorBytes(a: bytes, b: bytes): (r: bytes)
    requires |a| == |b|
    ensures |r| == |a|
  {
    seq(|a|, i requires 0 <= i < |a| => XorByte(a[i], b[i]))
  }

  function XorPort(p: nat): (r: nat)
    requires p < 65536
    ensures r < 65536
  {
    Pow2OfSixteen();
    Xor(16, p, MAGIC_HIGH)
  }

  lemma {:induction false} XorUndone(ip: bytes, port: nat)
    requires |ip| == 4 && port < 65536
    ensures XorBytes(XorBytes(ip, MAGIC), MAGIC) == ip && XorPort(XorPort(port)) == port
  {
    Pow2OfSixteen();
    XorUndoes(16, port, MAGIC_HIGH);
    hide Xor, XorByte;
    forall i | 0 <= i < 4 ensures XorBytes(XorBytes(ip, MAGIC), MAGIC)[i] == ip[i] {
      XorByteUndoes(ip[i], MAGIC[i]);
    }
  }

  /** What the walk makes of an XOR-MAPPED-ADDRESS value. */
  function ReadAddress(value: bytes): (r: Outcome)
  {
    if |value| < 4 then ShortValue
    else if value[1] != 1 then Ipv6Unsupported
    else if |value| < 8 then ShortValue
    else
      assert Pow256(2) == 65536;
      Mapped(XorBytes(value[4..8], MAGIC), XorPort(FromBigEndian(value[2..4])))
  }

  function Padding(n: nat): nat { (4 - n % 4) % 4 }

  /** An XOR-MAPPED-ADDRESS value is refused as too short for its family, as not IPv4 or as too short for the address,
      in this order; otherwise each bit of the port and of the address is that of the value, flipped where the magic
      cookie has a one. */
  lemma {:induction false} ReadsAddressExactly(value: bytes)
    ensures var r := ReadAddress(value);
      && (r == ShortValue <==> |value| < 4 || (value[1] == 1 && |value| < 8))
      && (r == Ipv6Unsupported <==> |value| >= 4 && value[1] != 1)
      && (r.Mapped? <==> |value| >= 8 && value[1] == 1)
    ensures var r := ReadAddress(value);
      r.Mapped? ==>
        && |r.ip| == 4 && r.port < 65536
        && (forall i, j :: 0 <= i < 4 && 0 <= j < 8 ==>
              (Bit(r.ip[i], j) <==> (Bit(value[4 + i], j) != Bit([0x21, 0x12, 0xA4, 0x42][i], j))))
        && (forall j :: 0 <= j < 16 ==>
              (Bit(r.port, j) <==> (Bit(256 * (value[2] as int) + value[3] as int, j) != Bit(0x2112, j))))
  {
    if |value| >= 8 && value[1] == 1 {
      var raw := FromBigEndian(value[2..4]);
      TwoBytes(value, 2);
      forall j | 0 <= j < 16 ensures Bit(XorPort(raw), j) <==> (Bit(raw, j) != Bit(0x2112, j)) {
        Pow2OfSixteen();
        XorBits(16, raw, MAGIC_HIGH, j);
      }
      hide FromBigEndian, XorPort, Bit, XorByte;
      forall i, j | 0 <= i < 4 && 0 <= j < 8
        ensures Bit(XorBytes(value[4..8], MAGIC)[i], j) <==> (Bit(value[4 + i], j) != Bit(MAGIC[i], j))
      {
        XorByteBits(value[4 + i], MAGIC[i], j);
      }
    }
  }

  lemma {:induction false} TwoBytes(s: bytes, i: nat)
    requires i + 2 <= |s|
    ensures FromBigEndian(s[i..i + 2]) == 256 * (s[i] as int) + s[i + 1] as int
  {
    assert s[i..i + 2] == [s[i]] + [s[i + 1]] && [s[i + 1]] + [] == [s[i + 1]];
    LeadingByte(s[i], [s[i + 1]]);
    LeadingByte(s[i + 1], []);
    assert Pow256(1) == 256 && Pow256(0) == 1;
  }

  function WalkFrom(data: bytes, pos: nat, end: nat): (r: Outcome)
    requires end <= |data|
    decreases end - pos
  {
    if pos + 4 > end then NoAddress
    else
      var kind, n := FromBigEndian(data[pos..pos + 2]), FromBigEndian(data[pos + 2..pos + 4]);
      var stop := pos + 4 + n;
      if stop > end then NoAddress
      else if kind == XOR_MAPPED_ADDRESS then ReadAddress(data[pos + 4..stop])
      else WalkFrom(data, stop + Padding(n), end)
  }

  function Min(a: nat, b: nat): nat { if a < b then a else b }

  /** `_parse_stun_mapped_address`. */
  method ParseMappedAddress(data: bytes, transaction: bytes) returns (r: Outcome)
    ensures |data| < 20 ==> r == TooShort
    ensures |data| >= 20 && data[8..20] != transaction ==> r == WrongTransaction
    ensures |data| >= 20 && data[8..20] == transaction ==>
      r == WalkFrom(data, 20, Min(|data|, 20 + FromBigEndian(data[2..4])))
  {
    hide FromBigEndian, ReadAddress, Padding;
    if |data| < 20 { return TooShort; }
    var length := FromBigEndian(data[2..4]);
    if data[8..20] != transaction { return WrongTransaction; }
    var pos := 20;
    var end := Min(|data|, 20 + length);
    while pos + 4 <= end
      invariant 20 <= pos
      invariant WalkFrom(data, pos, end) == WalkFrom(data, 20, end)
      decreases end - pos
    {
      var kind := FromBigEndian(data[pos..pos + 2]);
      var n := FromBigEndian(data[pos + 2..pos + 4]);
      var stop := pos + 4 + n;
      if stop > end { break; }
      if kind == XOR_MAPPED_ADDRESS { return ReadAddress(data[pos + 4..stop]); }
      pos := stop + Padding(n);
    }
    return NoAddress;
  }

  // ---- Well-formed responses ------------------------------------------------------------------------

  datatype Attribute = Attribute(kind: nat, value: bytes, pad: bytes) {
    /** The value is followed by as few bytes as bring it to a multiple of four (section 15 of RFC 5389). */
    ghost predicate Valid() {
      && kind < Pow256(2) && |value| < Pow256(2)
      && |pad| < 4 && (|value| + |pad|) % 4 == 0
    }

    function Encode(): (r: bytes)
      requires Valid()
    {
      BigEndian(2, kind) + BigEndian(2, |value|) + value + pad
    }
  }

  lemma {:induction false} PaddingIsLeast(n: nat, k: nat)
    requires k < 4 && (n + k) % 4 == 0
    ensures Padding(n) == k
  {
  }

  function EncodeAll(attrs: seq<Attribute>): (r: bytes)
    requires forall a :: a in attrs ==> a.Valid()
  {
    if attrs == [] then [] else attrs[0].Encode() + EncodeAll(attrs[1..])
  }

  /** The first attribute of the wanted kind decides; without one there is no address. */
  function Expected(attrs: seq<Attribute>): (r: Outcome)
  {
    if attrs == [] then NoAddress
    else if attrs[0].kind == XOR_MAPPED_ADDRESS then ReadAddress(attrs[0].value)
    else Expected(attrs[1..])
  }

  lemma {:induction false} AttributeParts(data: bytes, pos: nat, a: Attribute)
    requires a.Valid() && At(data, a.Encode(), pos)
    ensures var n := |a.value|;
      && pos + |a.Encode()| == pos + 4 + n + Padding(n) <= |data|
      && FromBigEndian(data[pos..pos + 2]) == a.kind
      && FromBigEndian(data[pos + 2..pos + 4]) == n
      && data[pos + 4..pos + 4 + n] == a.value
  {
    PaddingIsLeast(|a.value|, |a.pad|);
    hide BigEndian, FromBigEndian, Pow256, Padding;
    var k, l := BigEndian(2, a.kind), BigEndian(2, |a.value|);
    AtSplit(data, k + l + a.value, a.pad, pos);
    AtSplit(data, k + l, a.value, pos);
    AtSplit(data, k, l, pos);
  }

  lemma {:induction false} WalkFinds(data: bytes, pos: nat, attrs: seq<Attribute>)
    requires (forall a :: a in attrs ==> a.Valid()) && At(data, EncodeAll(attrs), pos)
    ensures pos + |EncodeAll(attrs)| <= |data|
    ensures WalkFrom(data, pos, pos + |EncodeAll(attrs)|) == Expected(attrs)
    decreases |attrs|
  {
    hide FromBigEndian, ReadAddress, Padding, Attribute.Encode, Attribute.Valid;
    if attrs != [] {
      var a, rest := attrs[0], attrs[1..];
      AtSplit(data, a.Encode(), EncodeAll(rest), pos);
      AttributeParts(data, pos, a);
      WalkFinds(data, pos + |a.Encode()|, rest);
    }
  }

  /** A binding response: type, attribute length, cookie, transaction id, attributes; anything may trail it. */
  function Response(kind: nat, cookie: bytes, transaction: bytes, attrs: seq<Attribute>, trailing: bytes): (r: bytes)
    requires kind < Pow256(2) && |cookie| == 4 && |transaction| == 12
    requires (forall a :: a in attrs ==> a.Valid()) && |EncodeAll(attrs)| < Pow256(2)
  {
    BigEndian(2, kind) + BigEndian(2, |EncodeAll(attrs)|) + cookie + transaction + EncodeAll(attrs) + trailing
  }

  /** For every well-formed response with the matching transaction id, the walk returns what the first
      XOR-MAPPED-ADDRESS says, whatever attributes of any length precede or follow it. */
  lemma {:induction false} WalksResponse(kind: nat, cookie: bytes, transaction: bytes, attrs: seq<Attribute>,
                                         trailing: bytes)
    requires kind < Pow256(2) && |cookie| == 4 && |transaction| == 12
    requires (forall a :: a in attrs ==> a.Valid()) && |EncodeAll(attrs)| < Pow256(2)
    ensures var data := Response(kind, cookie, transaction, attrs, trailing);
      && |data| >= 20 && data[8..20] == transaction
      && WalkFrom(data, 20, Min(|data|, 20 + FromBigEndian(data[2..4]))) == Expected(attrs)
  {
    hide BigEndian, FromBigEndian, Pow256, WalkFrom, Expected, EncodeAll, Attribute.Valid;
    var body := EncodeAll(attrs);
    var data := Response(kind, cookie, transaction, attrs, trailing);
    assert data[2..4] == BigEndian(2, |body|);
    assert data[8..20] == transaction;
    assert data[20..20 + |body|] == body;
    WalkFinds(data, 20, attrs);
  }

  lemma {:induction false} ExpectedSkips(before: seq<Attribute>, rest: seq<Attribute>)
    requires forall a :: a in before ==> a.kind != XOR_MAPPED_ADDRESS
    ensures Expected(before + rest) == Expected(rest)
    decreases |before|
  {
    if before == [] {
      assert before + rest == rest;
    } else {
      assert (before + rest)[0] == before[0] && before[0] in before && (before + rest)[1..] == before[1..] + rest;
      assert forall a :: a in before[1..] ==> a in before;
      ExpectedSkips(before[1..], rest);
    }
  }

  /** The value an IPv4 server writes for an address and port, with any first byte and anything behind. */
  function AddressValue(first: byte, ip: bytes, port: nat, extra: bytes): (r: bytes)
    requires |ip| == 4 && port < 65536
  {
    assert Pow256(2) == 65536;
    [first, 1] + BigEndian(2, XorPort(port)) + XorBytes(ip, MAGIC) + extra
  }

  lemma {:induction false} ReadsWrittenAddress(first: byte, ip: bytes, port: nat, extra: bytes)
    requires |ip| == 4 && port < 65536
    ensures ReadAddress(AddressValue(first, ip, port, extra)) == Mapped(ip, port)
  {
    XorUndone(ip, port);
    assert Pow256(2) == 65536;
    hide BigEndian, FromBigEndian, XorPort, XorBytes;
    var v := AddressValue(first, ip, port, extra);
    assert v[2..4] == BigEndian(2, XorPort(port));
    assert v[4..8] == XorBytes(ip, MAGIC);
  }

  /** So the walk returns the un-XORed address and port of the first XOR-MAPPED-ADDRESS when that one is IPv4. */
  lemma {:induction false} FindsMappedAddress(kind: nat, cookie: bytes, transaction: bytes, before: seq<Attribute>,
      found: Attribute, after: seq<Attribute>, trailing: bytes, first: byte, ip: bytes, port: nat, extra: bytes)
    requires kind < Pow256(2) && |cookie| == 4 && |transaction| == 12 && |ip| == 4 && port < 65536
    requires forall a :: a in before + [found] + after ==> a.Valid()
    requires |EncodeAll(before + [found] + after)| < Pow256(2)
    requires forall a :: a in before ==> a.kind != 0x0020
    requires found.kind == 0x0020 && found.value == AddressValue(first, ip, port, extra)
    ensures var data := Response(kind, cookie, transaction, before + [found] + after, trailing);
      && |data| >= 20
      && WalkFrom(data, 20, Min(|data|, 20 + FromBigEndian(data[2..4]))) == Mapped(ip, port)
  {
    hide FromBigEndian, Pow256, WalkFrom, EncodeAll, Attribute.Valid, ReadAddress, AddressValue, Response;
    WalksResponse(kind, cookie, transaction, before + [found] + after, trailing);
    assert before + [found] + after == before + ([found] + after);
    ExpectedSkips(before, [found] + after);
    assert ([found] + after)[0] == found;
    ReadsWrittenAddress(first, ip, port, extra);
  }

  /** What the walk makes of the first `room` bytes of a list of attributes. */
  function ExpectedWithin(attrs: seq<Attribute>, room: nat): (r: Outcome)
  {
    if attrs == [] || 4 + |attrs[0].value| > room then NoAddress
    else if attrs[0].kind == 0x0020 then ReadAddress(attrs[0].value)
    else
      var size := 4 + |attrs[0].value| + |attrs[0].pad|;
      if size > room then NoAddress else ExpectedWithin(attrs[1..], room - size)
  }

  /** A response cut short anywhere yields what its whole attributes say: one that does not fit is not looked into. */
  lemma {:induction false} WalksCutResponse(data: bytes, pos: nat, attrs: seq<Attribute>, end: nat)
    requires (forall a :: a in attrs ==> a.Valid()) && At(data, EncodeAll(attrs), pos)
    requires pos <= end <= pos + |EncodeAll(attrs)|
    ensures pos + |EncodeAll(attrs)| <= |data|
    ensures WalkFrom(data, pos, end) == ExpectedWithin(attrs, end - pos)
    decreases |attrs|
  {
    hide FromBigEndian, ReadAddress, Padding, Attribute.Encode, Attribute.Valid;
    if attrs != [] {
      var a, rest := attrs[0], attrs[1..];
      AtSplit(data, a.Encode(), EncodeAll(rest), pos);
      AttributeParts(data, pos, a);
      var next := pos + |a.Encode()|;
      assert |a.Encode()| == 4 + |a.value| + |a.pad| by { EncodedSize(a); }
      if next <= end { WalksCutResponse(data, next, rest, end); }
    }
  }

  lemma {:induction false} EncodedSize(a: Attribute)
    requires a.Valid()
    ensures |a.Encode()| == 4 + |a.value| + |a.pad|
  {
    hide BigEndian;
  }
}
