/** The foreign parts of the other modules are parameters with laws. Here each law is met by some instance, so that
    the theorems assuming it are about something. */
module Instances {
  import opened Bytes
  import opened Crypto
  import C = DiskCache
  import M = Messages

  // ---- A code for lists of numbers: each in unary, 0 after each, 2 at the end ------------------

  function Flat(xs: seq<nat>): (b: bytes)
    ensures b != []
    decreases |xs|, if xs == [] then 0 else xs[0]
  {
    if xs == [] then [2]
    else if xs[0] == 0 then [0] + Flat(xs[1..])
    else [1] + Flat([xs[0] - 1] + xs[1..])
  }

  lemma {:induction false} FlatInjective(xs: seq<nat>, ys: seq<nat>)
    requires Flat(xs) == Flat(ys)
    ensures xs == ys
    decreases |xs|, if xs == [] then 0 else xs[0]
  {
    assert Flat(xs)[0] == Flat(ys)[0];
    if xs != [] {
      assert Flat(xs)[1..] == Flat(ys)[1..];
      assert xs == [xs[0]] + xs[1..] && ys == [ys[0]] + ys[1..];
      if xs[0] == 0 {
        FlatInjective(xs[1..], ys[1..]);
      } else {
        var x, y := [xs[0] - 1] + xs[1..], [ys[0] - 1] + ys[1..];
        FlatInjective(x, y);
        assert x[0] == y[0] && x[1..] == y[1..];
      }
    }
  }

  lemma {:induction false} TwoIsLast(xs: seq<nat>, i: nat)
    requires i < |Flat(xs)|
    ensures Flat(xs)[i] == 2 <==> i == |Flat(xs)| - 1
    decreases |xs|, if xs == [] then 0 else xs[0]
  {
    if xs != [] && i > 0 {
      var rest := if xs[0] == 0 then xs[1..] else [xs[0] - 1] + xs[1..];
      assert Flat(xs)[1..] == Flat(rest);
      TwoIsLast(rest, i - 1);
    }
  }

  lemma {:induction false} NoPrefix(xs: seq<nat>, ys: seq<nat>, n: nat)
    requires n < |Flat(xs)|
    ensures Flat(xs)[..n] != Flat(ys)
  {
    if n > 0 && |Flat(ys)| == n {
      assert Flat(xs)[..n][n - 1] == Flat(xs)[n - 1];
      TwoIsLast(ys, n - 1);
      TwoIsLast(xs, n - 1);
    }
  }

  // ---- Strings, numbers and string maps as self-delimiting lists -------------------------------

  function Text(s: string): (xs: seq<nat>) { [|s|] + seq(|s|, i requires 0 <= i < |s| => s[i] as nat) }

  lemma {:induction false} TextSplits(s: string, t: string, xs: seq<nat>, ys: seq<nat>)
    requires Text(s) + xs == Text(t) + ys
    ensures s == t && xs == ys
  {
    assert (Text(s) + xs)[0] == |s| && (Text(t) + ys)[0] == |t|;
    forall i | 0 <= i < |s| ensures s[i] == t[i] {
      assert (Text(s) + xs)[i + 1] == s[i] as nat && (Text(t) + ys)[i + 1] == t[i] as nat;
    }
    assert xs == (Text(s) + xs)[|s| + 1..] && ys == (Text(t) + ys)[|t| + 1..];
  }

  function Number(n: int): (xs: seq<nat>) { if n < 0 then [1, -n] else [0, n] }

  lemma {:induction false} NumberSplits(m: int, n: int, xs: seq<nat>, ys: seq<nat>)
    requires Number(m) + xs == Number(n) + ys
    ensures m == n && xs == ys
  {
    var a, b := Number(m) + xs, Number(n) + ys;
    assert a[0] == b[0] && a[1] == b[1] && xs == a[2..] && ys == b[2..];
  }

  function Row(k: string, v: string, rest: seq<nat>): (xs: seq<nat>) { [1] + (Text(k) + (Text(v) + rest)) }

  lemma {:induction false} RowSplits(k: string, v: string, l: string, w: string, xs: seq<nat>, ys: seq<nat>)
    requires Row(k, v, xs) == Row(l, w, ys)
    ensures k == l && v == w && xs == ys
  {
    hide Text;
    assert Row(k, v, xs)[1..] == Text(k) + (Text(v) + xs) && Row(l, w, ys)[1..] == Text(l) + (Text(w) + ys);
    TextSplits(k, l, Text(v) + xs, Text(w) + ys);
    TextSplits(v, w, xs, ys);
  }

  lemma {:induction false} RowThen(k: string, v: string, xs: seq<nat>, more: seq<nat>)
    ensures Row(k, v, xs) + more == Row(k, v, xs + more)
  {
    hide Text;
    assert Text(v) + xs + more == Text(v) + (xs + more);
    assert Text(k) + (Text(v) + xs) + more == Text(k) + (Text(v) + xs + more);
    assert [1] + (Text(k) + (Text(v) + xs)) + more == [1] + (Text(k) + (Text(v) + xs) + more);
  }

  lemma {:induction false} OneLess(h: C.Headers, k: string)
    requires k in h
    ensures |h - {k}| < |h| && (h - {k})[k := h[k]] == h
  {
    assert (h - {k}).Keys == h.Keys - {k};
  }

  /** The rows in some order fixed by the map. */
  ghost function Table(h: C.Headers): (xs: seq<nat>)
    decreases |h|
  {
    if h == map[] then [0]
    else
      var k :| k in h;
      OneLess(h, k);
      Row(k, h[k], Table(h - {k}))
  }

  lemma {:induction false} FirstRow(h: C.Headers) returns (k: string)
    requires h != map[]
    ensures k in h && Table(h) == Row(k, h[k], Table(h - {k}))
  {
    k :| k in h && Table(h) == Row(k, h[k], Table(h - {k}));
  }

  lemma {:induction false} TableStarts(h: C.Headers)
    ensures Table(h) != [] && Table(h)[0] == if h == map[] then 0 else 1
    ensures h == map[] ==> Table(h) == [0]
  {
  }

  lemma {:induction false} TableSplits(h: C.Headers, g: C.Headers, xs: seq<nat>, ys: seq<nat>)
    requires Table(h) + xs == Table(g) + ys
    ensures h == g && xs == ys
    decreases |h|
  {
    TableStarts(h);
    TableStarts(g);
    hide Table, Row;
    assert (Table(h) + xs)[0] == (Table(g) + ys)[0];
    if h == map[] {
      assert xs == (Table(h) + xs)[1..] && ys == (Table(g) + ys)[1..];
    } else {
      var k := FirstRow(h);
      var l := FirstRow(g);
      RowThen(k, h[k], Table(h - {k}), xs);
      RowThen(l, g[l], Table(g - {l}), ys);
      RowSplits(k, h[k], l, g[l], Table(h - {k}) + xs, Table(g - {l}) + ys);
      OneLess(h, k);
      OneLess(g, l);
      TableSplits(h - {k}, g - {l}, xs, ys);
    }
  }

  // ---- The cache's environment -------------------------------------------------------------------

  ghost function MetaNumbers(m: C.Meta): (xs: seq<nat>) {
    Text(m.key) + (Number(m.status) + (Number(m.ttl) + (Number(m.created) + (Table(m.headers) + []))))
  }

  ghost function MetaCode(m: C.Meta): (b: bytes) { Flat(MetaNumbers(m)) }

  lemma {:induction false} MetaCodeInjective(m: C.Meta, n: C.Meta)
    requires MetaCode(m) == MetaCode(n)
    ensures m == n
  {
    hide Flat, Text, Number, Table;
    var m4, n4 := Table(m.headers) + [], Table(n.headers) + [];
    var m3, n3 := Number(m.created) + m4, Number(n.created) + n4;
    var m2, n2 := Number(m.ttl) + m3, Number(n.ttl) + n3;
    var m1, n1 := Number(m.status) + m2, Number(n.status) + n2;
    FlatInjective(Text(m.key) + m1, Text(n.key) + n1);
    TextSplits(m.key, n.key, m1, n1);
    NumberSplits(m.status, n.status, m2, n2);
    NumberSplits(m.ttl, n.ttl, m3, n3);
    NumberSplits(m.created, n.created, m4, n4);
    TableSplits(m.headers, n.headers, [], []);
  }

  ghost function MetaOfCode(b: bytes): (r: Option<C.Meta>) {
    if m :| MetaCode(m) == b then Some(m) else None
  }

  lemma {:induction false} MetaRoundTrip(m: C.Meta)
    ensures MetaOfCode(MetaCode(m)) == Some(m)
  {
    hide MetaCode;
    var r := MetaOfCode(MetaCode(m));
    assert r.Some? && MetaCode(r.value) == MetaCode(m);
    MetaCodeInjective(r.value, m);
  }

  lemma {:induction false} MetaCutShort(m: C.Meta, n: nat)
    requires n < |MetaCode(m)|
    ensures MetaOfCode(MetaCode(m)[..n]).None?
  {
    hide Flat, Text, Number, Table;
    var r := MetaOfCode(MetaCode(m)[..n]);
    if r.Some? {
      NoPrefix(MetaNumbers(m), MetaNumbers(r.value), n);
    }
  }

  /** The cache's laws can be met: paths that are the keys themselves, and the code above for the metadata. */
  lemma {:induction false} SomeEnv() returns (env: C.Env)
    ensures env.Lawful()
  {
    hide MetaCode, MetaOfCode;
    env := C.Env(k => k, m => MetaCode(m), b => MetaOfCode(b));
    forall m ensures env.decode(env.encode(m)) == Some(m) { MetaRoundTrip(m); }
    forall m, n | 0 <= n < |env.encode(m)| ensures env.decode(env.encode(m)[..n]).None? { MetaCutShort(m, n); }
  }

  // ---- The control messages' codec --------------------------------------------------------------

  function MessageCode(m: M.Message): (b: bytes) { Flat(Text(m.kind) + (Text(m.payload) + [])) }

  ghost function MessageOfCode(b: bytes): (r: Option<M.Message>) {
    if m :| MessageCode(m) == b then Some(m) else None
  }

  lemma {:induction false} MessageRoundTrip(m: M.Message)
    ensures MessageOfCode(MessageCode(m)) == Some(m)
  {
    hide Flat, Text;
    var r := MessageOfCode(MessageCode(m));
    var n := r.value;
    FlatInjective(Text(m.kind) + (Text(m.payload) + []), Text(n.kind) + (Text(n.payload) + []));
    TextSplits(m.kind, n.kind, Text(m.payload) + [], Text(n.payload) + []);
    TextSplits(m.payload, n.payload, [], []);
  }

  lemma {:induction false} SomeCodec() returns (codec: M.Codec)
    ensures codec.Lawful()
  {
    hide MessageCode, MessageOfCode;
    codec := M.Codec(m => MessageCode(m), b => MessageOfCode(b));
    forall m ensures codec.decode(codec.encode(m)) == Some(m) { MessageRoundTrip(m); }
  }

  // ---- The tunnel's primitives ------------------------------------------------------------------

  function Zeros(n: nat): (b: bytes) { seq(n, i => 0) }

  function Head(a: bytes): byte { if a == [] then 0 else a[0] }

  function Key(x: byte): (k: bytes)
    ensures |k| == KEY_LENGTH && Head(k) == x
  {
    [x] + Zeros(KEY_LENGTH - 1)
  }

  function Greater(a: byte, b: byte): byte { if a < b then b else a }

  function Tagged(p: bytes): (c: bytes)
    ensures |c| == |p| + TAG_LENGTH && Untagged(c) == Some(p)
  {
    var c := p + Zeros(TAG_LENGTH);
    assert c[..|p|] == p;
    c
  }

  function Untagged(c: bytes): (p: Option<bytes>) {
    if |c| < TAG_LENGTH then None else Some(c[..|c| - TAG_LENGTH])
  }

  /** The laws ask for agreement and inversion only, so primitives without any secrecy meet them: here two keys agree on
      the greater one. Different pairs may get different keys. */
  lemma {:induction false} SomeSuite() returns (suite: Suite)
    ensures suite.Lawful()
    ensures suite.hkdf(suite.exchange([0], suite.publicKey([0])))
         != suite.hkdf(suite.exchange([0], suite.publicKey([1])))
  {
    hide Key, Tagged;
    suite := Suite(
      a => Key(Head(a)),
      (a, p) => [Greater(Head(a), Head(p))],
      x => Key(Head(x)),
      (k, n, p) => Tagged(p),
      (k, n, c) => Untagged(c));
    assert Head(Key(0)) != Head(Key(1));
  }
}
