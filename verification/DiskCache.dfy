/** The on-disk response cache with least-recently-used eviction (proxy/cache/storage.py). Times are whole ticks of
    the clock, which the metadata keeps exactly. */
module DiskCache {
  import opened Bytes

  type Key = string
  type Headers = map<string, string>

  datatype Meta = Meta(key: Key, status: int, headers: Headers, ttl: int, created: int)

  datatype Response = Response(status: int, headers: Headers, body: bytes)

  datatype Entry = Entry(status: int, headers: Headers, body: bytes, ttl: int, created: int, lastAccess: int)

  /** The foreign parts: the hashed file path of a key and the JSON metadata codec. A JSON object cut short is
      no JSON object. `Instances.SomeEnv` shows that the laws can be met. */
  datatype Env = Env(path: Key -> string, encode: Meta -> bytes, decode: bytes -> Option<Meta>) {
    ghost predicate Lawful() {
      && (forall a, b :: path(a) == path(b) ==> a == b)
      && (forall m :: decode(encode(m)) == Some(m))
      && (forall m, n :: 0 <= n < |encode(m)| ==> decode(encode(m)[..n]).None?)
    }

    /** The 4-byte length field can hold the size of the metadata. */
    predicate Fits(m: Meta) { |encode(m)| < Pow256(4) }
  }

  // ---- The file format: 4-byte length, metadata, body -------------------------------

  function FileBytes(env: Env, m: Meta, body: bytes): (f: bytes)
    requires env.Fits(m)
    ensures |f| == 4 + |env.encode(m)| + |body|
  {
    BigEndian(4, |env.encode(m)|) + env.encode(m) + body
  }

  function ReadFile(env: Env, f: bytes): (r: Option<(Meta, bytes)>)
  {
    var head := if |f| < 4 then f else f[..4];
    var n := FromBigEndian(head);
    var stop := if |head| + n > |f| then |f| else |head| + n;
    match env.decode(f[|head|..stop])
    case None => None
    case Some(m) => Some((m, f[stop..]))
  }

  lemma {:induction false} EncodedNotEmpty(env: Env, m: Meta)
    requires env.Lawful()
    ensures env.encode(m) != [] && env.decode([]).None?
  {
    var other := m.(status := m.status + 1);
    assert env.decode(env.encode(m)) == Some(m) && env.decode(env.encode(other)) == Some(other);
    assert env.encode(m)[..0] == [] && env.encode(other)[..0] == [];
  }

  /** A file cut after `n` bytes is unreadable up to the end of its metadata, and from there on reads as the
      metadata with the body cut short. */
  lemma {:induction false} ReadCut(env: Env, m: Meta, body: bytes, n: nat)
    requires env.Lawful() && env.Fits(m) && n <= |FileBytes(env, m, body)|
    ensures ReadFile(env, FileBytes(env, m, body)[..n])
         == if n < 4 + |env.encode(m)| then None else Some((m, body[..n - 4 - |env.encode(m)|]))
  {
    hide BigEndian, FromBigEndian, Pow256;
    EncodedNotEmpty(env, m);
    var e := env.encode(m);
    var whole := FileBytes(env, m, body);
    var f := whole[..n];
    if n < 4 {
      assert f[n..n] == [];
    } else {
      assert f[..4] == BigEndian(4, |e|);
      if n < 4 + |e| {
        assert f[4..n] == e[..n - 4];
      } else {
        assert f[4..4 + |e|] == e;
        assert f[4 + |e|..] == body[..n - 4 - |e|];
      }
    }
  }

  lemma {:induction false} ReadWritten(env: Env, m: Meta, body: bytes)
    requires env.Lawful() && env.Fits(m)
    ensures ReadFile(env, FileBytes(env, m, body)) == Some((m, body))
  {
    hide FileBytes, ReadFile;
    var f := FileBytes(env, m, body);
    ReadCut(env, m, body, |f|);
    assert f[..|f|] == f && body[..|body|] == body;
  }

  // ---- Operations ----------------------------------------------------------------------

  datatype Cache = Cache(entries: map<Key, Entry>, size: int, disk: map<string, bytes>)

  /** `_remove`; `stuck` says that deleting the file fails. */
  function Removed(env: Env, s: Cache, k: Key, stuck: bool): (t: Cache)
  {
    Cache(s.entries - {k},
          if k !in s.entries then s.size
          else if s.size - |s.entries[k].body| < 0 then 0 else s.size - |s.entries[k].body|,
          if stuck then s.disk else s.disk - {env.path(k)})
  }

  function RemovedAll(env: Env, s: Cache, ks: seq<Key>, stuck: set<Key>): (t: Cache)
    decreases |ks|
  {
    if ks == [] then s else RemovedAll(env, Removed(env, s, ks[0], ks[0] in stuck), ks[1..], stuck)
  }

  ghost predicate LeastRecent(entries: map<Key, Entry>, k: Key) {
    k in entries && forall j :: j in entries ==> entries[k].lastAccess <= entries[j].lastAccess
  }

  predicate NeedsRoom(s: Cache, need: nat, maxSize: int) { s.size + need > maxSize && s.entries != map[] }

  /** `victims` is a run of the eviction loop: each the least recently used when its turn came, none too few or too
      many. */
  ghost predicate Evicts(env: Env, s: Cache, victims: seq<Key>, stuck: set<Key>, need: nat, maxSize: int)
    decreases |victims|
  {
    if !NeedsRoom(s, need, maxSize) then victims == []
    else
      && victims != []
      && LeastRecent(s.entries, victims[0])
      && Evicts(env, Removed(env, s, victims[0], victims[0] in stuck), victims[1..], stuck, need, maxSize)
  }

  /** How the disk answers a write: all of it, a refusal to open the file, or an error after some bytes of it. */
  datatype Write = Done | Refused | Torn(written: nat)

  /** What a write leaves in the file; None leaves the file alone. Metadata too long for the length field raises
      an OverflowError once the file has been opened, and so emptied. */
  function Image(env: Env, m: Meta, body: bytes, w: Write): (f: Option<bytes>)
  {
    if w.Refused? then None
    else if !env.Fits(m) then Some([])
    else
      var f := FileBytes(env, m, body);
      Some(if w.Torn? && w.written < |f| then f[..w.written] else f)
  }

  predicate Completes(env: Env, m: Meta, w: Write) { w.Done? && env.Fits(m) }

  /** `store` once the victims are known. */
  function Stored(env: Env, s: Cache, k: Key, r: Response, ttl: int, now: int, tick: int,
                  victims: seq<Key>, stuck: set<Key>, w: Write): (t: Cache)
  {
    var m := Meta(k, r.status, r.headers, ttl, now);
    var s1 := RemovedAll(env, s, victims, stuck);
    var file := Image(env, m, r.body, w);
    var disk := if file.None? then s1.disk else s1.disk[env.path(k) := file.value];
    if !Completes(env, m, w) then s1.(disk := disk)
    else Cache(s1.entries[k := Entry(r.status, r.headers, r.body, ttl, now, tick)], s1.size + |r.body|, disk)
  }

  function Retrieved(env: Env, s: Cache, k: Key, now: int, tick: int, stuck: bool): (r: (Cache, Option<Response>))
  {
    if k in s.entries then
      var e := s.entries[k];
      if now - e.created > e.ttl then (Removed(env, s, k, stuck), None)
      else (s.(entries := s.entries[k := e.(lastAccess := tick)]), Some(Response(e.status, e.headers, e.body)))
    else if env.path(k) !in s.disk then (s, None)
    else
      match ReadFile(env, s.disk[env.path(k)])
      case None => (s, None)
      case Some((m, body)) =>
        if now - m.created > m.ttl then (if stuck then s else s.(disk := s.disk - {env.path(k)}), None)
        else (s, Some(Response(m.status, m.headers, body)))
  }

  class DiskCache {
    const env: Env
    const maxSize: int
    var entries: map<Key, Entry>
    var currentSize: int
    var disk: map<string, bytes>

    constructor (env: Env, maxSize: int, disk: map<string, bytes>)
      ensures this.env == env && this.maxSize == maxSize
      ensures View() == Cache(map[], 0, disk)
    {
      this.env, this.maxSize, this.disk := env, maxSize, disk;
      entries, currentSize := map[], 0;
    }

    function View(): Cache
      reads this
    {
      Cache(entries, currentSize, disk)
    }

    method Remove(k: Key, stuck: bool)
      modifies this
      ensures View() == Removed(env, old(View()), k, stuck)
    {
      if k in entries {
        var e := entries[k];
        entries := entries - {k};
        currentSize := if currentSize - |e.body| < 0 then 0 else currentSize - |e.body|;
      } else {
        assert entries - {k} == entries;
      }
      if !stuck { disk := disk - {env.path(k)}; }
    }

    /** `min` over the dictionary by last access. */
    method OldestKey() returns (k: Key)
      requires entries != map[]
      ensures LeastRecent(entries, k)
    {
      var todo := entries.Keys;
      k :| k in todo;
      while todo != {}
        invariant k in entries && todo <= entries.Keys
        invariant forall j :: j in entries && j !in todo ==> entries[k].lastAccess <= entries[j].lastAccess
        decreases todo
      {
        var j :| j in todo;
        if entries[j].lastAccess < entries[k].lastAccess { k := j; }
        todo := todo - {j};
      }
    }

    method EvictOne(stuck: set<Key>) returns (k: Option<Key>)
      modifies this
      ensures k.None? <==> old(entries) == map[]
      ensures k.None? ==> View() == old(View())
      ensures k.Some? ==>
        && LeastRecent(old(entries), k.value) && View() == Removed(env, old(View()), k.value, k.value in stuck)
        && |entries| < |old(entries)|
    {
      if entries == map[] { return None; }
      var oldest := OldestKey();
      ShrinksBy(entries, oldest);
      Remove(oldest, oldest in stuck);
      return Some(oldest);
    }

    method MakeRoom(need: nat, stuck: set<Key>) returns (ghost victims: seq<Key>)
      modifies this
      ensures Evicts(env, old(View()), victims, stuck, need, maxSize)
      ensures View() == RemovedAll(env, old(View()), victims, stuck)
    {
      victims := [];
      ghost var was := View();
      EvictsFromStart(env, was, stuck, need, maxSize);
      hide LeastRecent, Removed, RemovedAll, Evicts, EvictsOn;
      while currentSize + need > maxSize && entries != map[]
        invariant View() == RemovedAll(env, was, victims, stuck)
        invariant EvictsOn(env, was, victims, stuck, need, maxSize)
        decreases |entries|
      {
        var evicted := EvictOne(stuck);
        EvictsOneMore(env, was, victims, evicted.value, stuck, need, maxSize);
        victims := victims + [evicted.value];
      }
      EvictsToEnd(env, was, victims, stuck, need, maxSize);
    }

    method Store(k: Key, r: Response, ttl: int, now: int, tick: int, stuck: set<Key>, w: Write)
      returns (raised: bool, ghost victims: seq<Key>)
      modifies this
      ensures Evicts(env, old(View()), victims, stuck, |r.body|, maxSize)
      ensures View() == Stored(env, old(View()), k, r, ttl, now, tick, victims, stuck, w)
      ensures raised <==> !w.Refused? && !env.Fits(Meta(k, r.status, r.headers, ttl, now))
    {
      hide FileBytes, Evicts, RemovedAll, Env.Fits, Image;
      victims := MakeRoom(|r.body|, stuck);
      var done;
      done, raised := WriteFile(Meta(k, r.status, r.headers, ttl, now), r.body, w);
      if !done { return; }
      entries := entries[k := Entry(r.status, r.headers, r.body, ttl, now, tick)];
      currentSize := currentSize + |r.body|;
    }

    /** Opening the file empties it; the length is packed before anything is written. */
    method WriteFile(meta: Meta, body: bytes, w: Write) returns (done: bool, raised: bool)
      modifies this`disk
      ensures var file := Image(env, meta, body, w);
        disk == if file.None? then old(disk) else old(disk)[env.path(meta.key) := file.value]
      ensures done <==> Completes(env, meta, w)
      ensures raised <==> !w.Refused? && !env.Fits(meta)
    {
      hide FileBytes;
      if w.Refused? { return false, false; }
      var written: bytes := [];
      done, raised := false, !env.Fits(meta);
      if !raised {
        var file := FileBytes(env, meta, body);
        done := w.Done?;
        written := if w.Torn? && w.written < |file| then file[..w.written] else file;
      }
      disk := disk[env.path(meta.key) := written];
    }

    method Retrieve(k: Key, now: int, tick: int, stuck: bool) returns (r: Option<Response>)
      modifies this
      ensures (View(), r) == Retrieved(env, old(View()), k, now, tick, stuck)
    {
      if k in entries {
        var e := entries[k];
        if now - e.created > e.ttl {
          Remove(k, stuck);
          return None;
        }
        entries := entries[k := e.(lastAccess := tick)];
        return Some(Response(e.status, e.headers, e.body));
      }
      if env.path(k) !in disk { return None; }
      var file := ReadFile(env, disk[env.path(k)]);
      if file.None? { return None; }
      var (m, body) := file.value;
      if now - m.created > m.ttl {
        if !stuck { disk := disk - {env.path(k)}; }
        return None;
      }
      return Some(Response(m.status, m.headers, body));
    }

    /** `order` is the dictionary's key list; an empty pattern matches every key. */
    method Purge(pattern: string, order: seq<Key>, stuck: set<Key>) returns (count: nat)
      requires multiset(order) == multiset(entries.Keys)
      modifies this
      ensures View() == RemovedAll(env, old(View()), Matching(order, pattern), stuck)
      ensures count == |Matching(order, pattern)|
      ensures entries == map k | k in old(entries) && !(pattern <= k) :: old(entries)[k]
      ensures count == |set k | k in old(entries) && pattern <= k|
    {
      PurgesExactly(env, View(), order, pattern, stuck);
      MatchingStart(env, View(), order, pattern, stuck);
      hide Matching, RemovedAll, Removed;
      count := 0;
      ghost var was := View();
      var i := 0;
      while i < |order|
        invariant 0 <= i <= |order|
        invariant count == |Matching(order[..i], pattern)|
        invariant View() == RemovedAll(env, was, Matching(order[..i], pattern), stuck)
      {
        MatchingNext(order, pattern, i);
        if pattern <= order[i] {
          RemovedAllAppend(env, was, Matching(order[..i], pattern), order[i], stuck);
          Remove(order[i], order[i] in stuck);
          count := count + 1;
        }
        i := i + 1;
      }
      assert order[..i] == order;
    }
  }

  function Matching(order: seq<Key>, pattern: string): (r: seq<Key>)
  {
    if order == [] then []
    else
      var front, last := order[..|order| - 1], order[|order| - 1];
      Matching(front, pattern) + if pattern <= last then [last] else []
  }

  /** Removing a live entry takes its size off the counter, down to zero and no further. */
  lemma {:induction false} RemovesExactly(env: Env, s: Cache, k: Key, stuck: bool)
    ensures var t := Removed(env, s, k, stuck);
      && t.size == (if k !in s.entries then s.size
                    else if s.size > |s.entries[k].body| then s.size - |s.entries[k].body| else 0)
      && t.entries == map j | j in s.entries && j != k :: s.entries[j]
  {
  }

  lemma {:induction false} MatchingStart(env: Env, s: Cache, order: seq<Key>, pattern: string, stuck: set<Key>)
    ensures Matching(order[..0], pattern) == [] && RemovedAll(env, s, [], stuck) == s
  {
  }

  lemma {:induction false} MatchingNext(order: seq<Key>, pattern: string, i: nat)
    requires i < |order|
    ensures pattern <= order[i] ==> Matching(order[..i + 1], pattern) == Matching(order[..i], pattern) + [order[i]]
    ensures !(pattern <= order[i]) ==> Matching(order[..i + 1], pattern) == Matching(order[..i], pattern)
  {
    assert order[..i + 1][..i] == order[..i];
  }

  lemma {:induction false} MatchingCounts(order: seq<Key>, pattern: string, k: Key)
    ensures multiset(Matching(order, pattern))[k] == if pattern <= k then multiset(order)[k] else 0
  {
    if order != [] {
      var front, last := order[..|order| - 1], order[|order| - 1];
      assert order == front + [last];
      MatchingCounts(front, pattern, k);
    }
  }

  /** A purge removes exactly the keys that begin with the pattern, all of them if it is empty. */
  lemma {:induction false} PurgesExactly(env: Env, s: Cache, order: seq<Key>, pattern: string, stuck: set<Key>)
    requires multiset(order) == multiset(s.entries.Keys)
    ensures RemovedAll(env, s, Matching(order, pattern), stuck).entries
         == map k | k in s.entries && !(pattern <= k) :: s.entries[k]
    ensures |Matching(order, pattern)| == |set k | k in s.entries && pattern <= k|
  {
    var matching := Matching(order, pattern);
    var gone := set k | k in s.entries && pattern <= k;
    forall k ensures multiset(matching)[k] == multiset(gone)[k] {
      MatchingCounts(order, pattern, k);
      assert multiset(order)[k] == multiset(s.entries.Keys)[k];
    }
    assert multiset(matching) == multiset(gone);
    assert forall k :: k in matching <==> k in multiset(matching);
    EntriesLeft(env, s, matching, stuck);
  }

  lemma {:induction false} EntriesLeft(env: Env, s: Cache, ks: seq<Key>, stuck: set<Key>)
    ensures RemovedAll(env, s, ks, stuck).entries == map k | k in s.entries && k !in ks :: s.entries[k]
    decreases |ks|
  {
    if ks != [] {
      var t := Removed(env, s, ks[0], ks[0] in stuck);
      EntriesLeft(env, t, ks[1..], stuck);
      assert forall k :: k in ks <==> k == ks[0] || k in ks[1..];
    }
  }

  lemma {:induction false} ShrinksBy(m: map<Key, Entry>, k: Key)
    requires k in m
    ensures |m - {k}| < |m|
  {
    assert (m - {k}).Keys == m.Keys - {k};
  }

  lemma {:induction false} RemovedAllAppend(env: Env, s: Cache, ks: seq<Key>, k: Key, stuck: set<Key>)
    ensures RemovedAll(env, s, ks + [k], stuck) == Removed(env, RemovedAll(env, s, ks, stuck), k, k in stuck)
    decreases |ks|
  {
    if ks == [] {
      assert ks + [k] == [k];
    } else {
      assert (ks + [k])[1..] == ks[1..] + [k];
      RemovedAllAppend(env, Removed(env, s, ks[0], ks[0] in stuck), ks[1..], k, stuck);
    }
  }

  /** `victims` begins a run of the eviction loop: any run from the state they leave completes it. */
  ghost predicate EvictsOn(env: Env, was: Cache, victims: seq<Key>, stuck: set<Key>, need: nat, maxSize: int) {
    forall more ::
      Evicts(env, RemovedAll(env, was, victims, stuck), more, stuck, need, maxSize) ==>
      Evicts(env, was, victims + more, stuck, need, maxSize)
  }

  lemma {:induction false} EvictsFromStart(env: Env, was: Cache, stuck: set<Key>, need: nat, maxSize: int)
    ensures RemovedAll(env, was, [], stuck) == was && EvictsOn(env, was, [], stuck, need, maxSize)
  {
    assert forall more: seq<Key> :: [] + more == more;
  }

  lemma {:induction false} EvictsToEnd(env: Env, was: Cache, victims: seq<Key>, stuck: set<Key>, need: nat,
                                       maxSize: int)
    requires EvictsOn(env, was, victims, stuck, need, maxSize)
    requires !NeedsRoom(RemovedAll(env, was, victims, stuck), need, maxSize)
    ensures Evicts(env, was, victims, stuck, need, maxSize)
  {
    assert victims + [] == victims;
    assert Evicts(env, RemovedAll(env, was, victims, stuck), [], stuck, need, maxSize);
  }

  /** Extending a run of the eviction loop by one more victim. */
  lemma {:induction false} EvictsOneMore(env: Env, was: Cache, victims: seq<Key>, k: Key,
                                         stuck: set<Key>, need: nat, maxSize: int)
    requires EvictsOn(env, was, victims, stuck, need, maxSize)
    requires var s := RemovedAll(env, was, victims, stuck); NeedsRoom(s, need, maxSize) && LeastRecent(s.entries, k)
    ensures EvictsOn(env, was, victims + [k], stuck, need, maxSize)
    ensures RemovedAll(env, was, victims + [k], stuck)
         == Removed(env, RemovedAll(env, was, victims, stuck), k, k in stuck)
  {
    hide LeastRecent, Removed;
    RemovedAllAppend(env, was, victims, k, stuck);
    var s := RemovedAll(env, was, victims, stuck);
    forall more | Evicts(env, RemovedAll(env, was, victims + [k], stuck), more, stuck, need, maxSize)
      ensures Evicts(env, was, victims + [k] + more, stuck, need, maxSize)
    {
      assert ([k] + more)[1..] == more;
      assert Evicts(env, s, [k] + more, stuck, need, maxSize);
      assert victims + [k] + more == victims + ([k] + more);
    }
  }

  // ---- Runs --------------------------------------------------------------------------------

  datatype Event =
    | StoreE(key: Key, response: Response, ttl: int, now: int, tick: int,
             victims: seq<Key>, stuck: set<Key>, write: Write)
    | RetrieveE(key: Key, now: int, tick: int, fileStuck: bool)
    | PurgeE(keys: seq<Key>, stuck: set<Key>)
    | RestartE

  function Step(env: Env, s: Cache, e: Event): (t: Cache)
  {
    match e
    case StoreE(k, r, ttl, now, tick, victims, stuck, w) => Stored(env, s, k, r, ttl, now, tick, victims, stuck, w)
    case RetrieveE(k, now, tick, stuck) => Retrieved(env, s, k, now, tick, stuck).0
    case PurgeE(ks, stuck) => RemovedAll(env, s, ks, stuck)
    case RestartE => s.(entries := map[], size := 0)
  }

  const EMPTY := Cache(map[], 0, map[])

  function Exec(env: Env, events: seq<Event>): (s: Cache)
  {
    if events == [] then EMPTY else Step(env, Exec(env, events[..|events| - 1]), events[|events| - 1])
  }

  /** The run is one the object can make: each store's victims are a run of its eviction loop. */
  ghost predicate LegalRun(env: Env, maxSize: int, events: seq<Event>) {
    forall i :: 0 <= i < |events| && events[i].StoreE? ==>
      Evicts(env, Exec(env, events[..i]), events[i].victims, events[i].stuck, |events[i].response.body|, maxSize)
  }

  // ---- The reference: a map from keys to their latest successful store -----------------------

  datatype Record = Record(response: Response, ttl: int, created: int) {
    function Expiry(): int { created + ttl }

    predicate FreshAt(now: int) { now <= Expiry() }
  }

  function MetaOf(k: Key, r: Record): Meta { Meta(k, r.response.status, r.response.headers, r.ttl, r.created) }

  /** The last store of a key that opened its file. */
  datatype Attempt = Attempt(record: Record, write: Write)

  predicate Succeeds(env: Env, e: Event) {
    e.StoreE? && Completes(env, Meta(e.key, e.response.status, e.response.headers, e.ttl, e.now), e.write)
  }

  function LatestStep(env: Env, latest: map<Key, Record>, e: Event): (r: map<Key, Record>)
  {
    if Succeeds(env, e) then latest[e.key := Record(e.response, e.ttl, e.now)] else latest
  }

  function Latest(env: Env, events: seq<Event>): (r: map<Key, Record>)
  {
    if events == [] then map[] else LatestStep(env, Latest(env, events[..|events| - 1]), events[|events| - 1])
  }

  function AttemptStep(attempts: map<Key, Attempt>, e: Event): (r: map<Key, Attempt>)
  {
    if e.StoreE? && !e.write.Refused? then attempts[e.key := Attempt(Record(e.response, e.ttl, e.now), e.write)]
    else attempts
  }

  function Attempts(events: seq<Event>): (r: map<Key, Attempt>)
  {
    if events == [] then map[] else AttemptStep(Attempts(events[..|events| - 1]), events[|events| - 1])
  }

  /** No write of `k` that failed half-way is the last one. */
  predicate Intact(env: Env, events: seq<Event>, k: Key) {
    var attempts := Attempts(events);
    k in attempts ==> Completes(env, MetaOf(k, attempts[k].record), attempts[k].write)
  }

  /** What is left to read of an attempt: nothing if it stopped within the metadata, else its body as far as written. */
  function Readable(env: Env, k: Key, a: Attempt): (r: Option<Record>)
  {
    var m, body := MetaOf(k, a.record), a.record.response.body;
    var start := 4 + |env.encode(m)|;
    if a.write.Refused? || !env.Fits(m) || (a.write.Torn? && a.write.written < start) then None
    else if a.write.Torn? && a.write.written < start + |body| then
      Some(a.record.(response := a.record.response.(body := body[..a.write.written - start])))
    else Some(a.record)
  }

  ghost predicate FileHolds(env: Env, s: Cache, k: Key, a: Attempt) {
    && env.path(k) in s.disk
    && Image(env, MetaOf(k, a.record), a.record.response.body, a.write) == Some(s.disk[env.path(k)])
  }

  /** Every file is what its key's last attempt left, and every entry is its key's latest success and has a file. */
  ghost predicate Mirrors(env: Env, s: Cache, latest: map<Key, Record>, attempts: map<Key, Attempt>) {
    && (forall k :: env.path(k) in s.disk ==> k in attempts && FileHolds(env, s, k, attempts[k]))
    && (forall k :: k in s.entries ==>
          && k in latest && env.path(k) in s.disk
          && var e := s.entries[k];
             Record(Response(e.status, e.headers, e.body), e.ttl, e.created) == latest[k])
  }

  lemma {:induction false} PathsDiffer(env: Env, a: Key, b: Key)
    requires env.Lawful() && a != b
    ensures env.path(a) != env.path(b)
  {
  }

  /** Mirroring survives losing an entry, and losing any file whose key has no entry. */
  lemma {:induction false} LossMirrors(env: Env, s: Cache, t: Cache, k: Key,
                                       latest: map<Key, Record>, attempts: map<Key, Attempt>)
    requires env.Lawful() && Mirrors(env, s, latest, attempts) && k !in t.entries
    requires forall j :: j in t.entries ==> j in s.entries && t.entries[j] == s.entries[j]
    requires t.disk == s.disk || t.disk == s.disk - {env.path(k)}
    ensures Mirrors(env, t, latest, attempts)
  {
    hide Image, Env.Lawful;
    forall j | env.path(j) in t.disk
      ensures j in attempts && FileHolds(env, t, j, attempts[j])
    {
      assert env.path(j) in s.disk && FileHolds(env, s, j, attempts[j]);
    }
    forall j | j in t.entries
      ensures env.path(j) in t.disk
    {
      PathsDiffer(env, j, k);
      assert j in s.entries;
    }
  }

  lemma {:induction false} RemovedMirrors(env: Env, s: Cache, k: Key, stuck: bool,
                                          latest: map<Key, Record>, attempts: map<Key, Attempt>)
    requires env.Lawful() && Mirrors(env, s, latest, attempts)
    ensures Mirrors(env, Removed(env, s, k, stuck), latest, attempts)
  {
    hide Mirrors, Env.Lawful;
    LossMirrors(env, s, Removed(env, s, k, stuck), k, latest, attempts);
  }

  /** A write that opens the file of `k` keeps the mirror, also when it fails and the old entry stays. */
  lemma {:induction false} WrittenMirrors(env: Env, s: Cache, k: Key, a: Attempt, file: bytes,
                                          latest: map<Key, Record>, attempts: map<Key, Attempt>)
    requires env.Lawful() && Mirrors(env, s, latest, attempts)
    requires Image(env, MetaOf(k, a.record), a.record.response.body, a.write) == Some(file)
    ensures Mirrors(env, s.(disk := s.disk[env.path(k) := file]), latest, attempts[k := a])
  {
    hide Image, Env.Lawful;
    var t := s.(disk := s.disk[env.path(k) := file]);
    assert FileHolds(env, t, k, a);
    forall j | env.path(j) in t.disk && j != k
      ensures j in attempts && FileHolds(env, t, j, attempts[j])
    {
      PathsDiffer(env, j, k);
      assert env.path(j) in s.disk && FileHolds(env, s, j, attempts[j]);
    }
    forall j | j in t.entries ensures env.path(j) in t.disk { assert j in s.entries; }
  }

  /** A success also enters `k` in the index. */
  lemma {:induction false} IndexedMirrors(env: Env, s: Cache, k: Key, rec: Record, tick: int, size: int,
                                          latest: map<Key, Record>, attempts: map<Key, Attempt>)
    requires Mirrors(env, s, latest, attempts) && env.path(k) in s.disk
    ensures var r := rec.response;
      var e := Entry(r.status, r.headers, r.body, rec.ttl, rec.created, tick);
      Mirrors(env, s.(entries := s.entries[k := e], size := size), latest[k := rec], attempts)
  {
    hide Image;
    var r := rec.response;
    var e := Entry(r.status, r.headers, r.body, rec.ttl, rec.created, tick);
    var t := s.(entries := s.entries[k := e], size := size);
    forall j | env.path(j) in t.disk ensures j in attempts && FileHolds(env, t, j, attempts[j]) {
      assert FileHolds(env, s, j, attempts[j]);
    }
    forall j | j in t.entries && j != k ensures j in latest && env.path(j) in t.disk { assert j in s.entries; }
  }

  lemma {:induction false} RemovedAllMirrors(env: Env, s: Cache, ks: seq<Key>, stuck: set<Key>,
                                             latest: map<Key, Record>, attempts: map<Key, Attempt>)
    requires env.Lawful() && Mirrors(env, s, latest, attempts)
    ensures Mirrors(env, RemovedAll(env, s, ks, stuck), latest, attempts)
    decreases |ks|
  {
    hide Mirrors, Removed;
    if ks != [] {
      RemovedMirrors(env, s, ks[0], ks[0] in stuck, latest, attempts);
      RemovedAllMirrors(env, Removed(env, s, ks[0], ks[0] in stuck), ks[1..], stuck, latest, attempts);
    }
  }

  lemma {:induction false} StoreMirrors(env: Env, s: Cache, e: Event,
                                        latest: map<Key, Record>, attempts: map<Key, Attempt>)
    requires env.Lawful() && Mirrors(env, s, latest, attempts) && e.StoreE?
    ensures Mirrors(env, Step(env, s, e), LatestStep(env, latest, e), AttemptStep(attempts, e))
  {
    hide FileBytes, RemovedAll, Env.Lawful, Env.Fits, Mirrors;
    var s1 := RemovedAll(env, s, e.victims, e.stuck);
    var rec := Record(e.response, e.ttl, e.now);
    RemovedAllMirrors(env, s, e.victims, e.stuck, latest, attempts);
    var file := Image(env, MetaOf(e.key, rec), e.response.body, e.write);
    if file.Some? {
      WrittenMirrors(env, s1, e.key, Attempt(rec, e.write), file.value, latest, attempts);
      var s2 := s1.(disk := s1.disk[env.path(e.key) := file.value]);
      IndexedMirrors(env, s2, e.key, rec, e.tick, s1.size + |e.response.body|, latest, AttemptStep(attempts, e));
    }
  }

  lemma {:induction false} StepMirrors(env: Env, s: Cache, e: Event,
                                       latest: map<Key, Record>, attempts: map<Key, Attempt>)
    requires env.Lawful() && Mirrors(env, s, latest, attempts)
    ensures Mirrors(env, Step(env, s, e), LatestStep(env, latest, e), AttemptStep(attempts, e))
  {
    hide ReadFile, RemovedAll, Env.Lawful, Removed, Mirrors, Stored;
    match e {
      case StoreE(_, _, _, _, _, _, _, _) => StoreMirrors(env, s, e, latest, attempts);
      case RetrieveE(k, now, tick, stuck) => RetrievedMirrors(env, s, k, now, tick, stuck, latest, attempts);
      case PurgeE(ks, stuck) => RemovedAllMirrors(env, s, ks, stuck, latest, attempts);
      case RestartE => LossMirrors(env, s, s.(entries := map[], size := 0), "", latest, attempts);
    }
  }

  lemma {:induction false} RetrievedMirrors(env: Env, s: Cache, k: Key, now: int, tick: int, stuck: bool,
                                            latest: map<Key, Record>, attempts: map<Key, Attempt>)
    requires env.Lawful() && Mirrors(env, s, latest, attempts)
    ensures Mirrors(env, Retrieved(env, s, k, now, tick, stuck).0, latest, attempts)
  {
    hide ReadFile, Env.Lawful, Removed, Mirrors;
    RemovedMirrors(env, s, k, stuck, latest, attempts);
    if k !in s.entries { LossMirrors(env, s, s.(disk := s.disk - {env.path(k)}), k, latest, attempts); }
    else { TouchMirrors(env, s, k, tick, latest, attempts); }
  }

  lemma {:induction false} TouchMirrors(env: Env, s: Cache, k: Key, tick: int,
                                        latest: map<Key, Record>, attempts: map<Key, Attempt>)
    requires Mirrors(env, s, latest, attempts) && k in s.entries
    ensures Mirrors(env, s.(entries := s.entries[k := s.entries[k].(lastAccess := tick)]), latest, attempts)
  {
    hide Image;
    var t := s.(entries := s.entries[k := s.entries[k].(lastAccess := tick)]);
    forall j | j in t.entries ensures j in latest && env.path(j) in t.disk { assert j in s.entries; }
    forall j | env.path(j) in t.disk ensures j in attempts && FileHolds(env, t, j, attempts[j]) {
      assert FileHolds(env, s, j, attempts[j]);
    }
  }

  lemma {:induction false} MirrorsAlways(env: Env, events: seq<Event>)
    requires env.Lawful()
    ensures Mirrors(env, Exec(env, events), Latest(env, events), Attempts(events))
  {
    if events != [] {
      hide Mirrors, Step, LatestStep, AttemptStep;
      var prior := events[..|events| - 1];
      MirrorsAlways(env, prior);
      StepMirrors(env, Exec(env, prior), events[|events| - 1], Latest(env, prior), Attempts(prior));
    }
  }

  /** An attempt that succeeded is the latest success. */
  lemma {:induction false} IntactIsLatest(env: Env, events: seq<Event>, k: Key)
    requires Intact(env, events, k)
    ensures var attempts, latest := Attempts(events), Latest(env, events);
      k in attempts ==> k in latest && Readable(env, k, attempts[k]) == Some(latest[k])
  {
    hide Env.Fits;
    if events != [] {
      var prior, e := events[..|events| - 1], events[|events| - 1];
      if !(e.StoreE? && !e.write.Refused? && e.key == k) { IntactIsLatest(env, prior, k); }
    }
  }

  /** The file an attempt left is read as what is readable of the attempt. */
  lemma {:induction false} ReadsAttempt(env: Env, k: Key, a: Attempt, file: bytes)
    requires env.Lawful() && Image(env, MetaOf(k, a.record), a.record.response.body, a.write) == Some(file)
    ensures var r := Readable(env, k, a);
      ReadFile(env, file) == if r.None? then None else Some((MetaOf(k, r.value), r.value.response.body))
  {
    hide FileBytes, ReadFile, Pow256;
    var m, body := MetaOf(k, a.record), a.record.response.body;
    if !env.Fits(m) {
      ReadNothing(env, m);
    } else if a.write.Torn? && a.write.written < |FileBytes(env, m, body)| {
      ReadCut(env, m, body, a.write.written);
    } else {
      ReadWritten(env, m, body);
    }
  }

  lemma {:induction false} ReadNothing(env: Env, m: Meta)
    requires env.Lawful()
    ensures ReadFile(env, []).None?
  {
    EncodedNotEmpty(env, m);
  }

  /** Over every run, with torn writes, failed deletions, evictions, purges and restarts, exactly what a lookup
      answers: the latest success while it is indexed, otherwise what is readable of the last attempt; either while
      fresh. */
  lemma {:induction false} LookupExactly(env: Env, events: seq<Event>, k: Key, now: int, tick: int, stuck: bool)
    requires env.Lawful()
    ensures var s := Exec(env, events);
      && (k in s.entries ==> k in Latest(env, events))
      && (env.path(k) in s.disk ==> k in Attempts(events))
      && var source := Source(env, events, k);
         Retrieved(env, s, k, now, tick, stuck).1
           == if source.Some? && source.value.FreshAt(now) then Some(source.value.response) else None
  {
    hide Image, Readable, ReadFile, Exec, Latest, Attempts, Removed, Env.Lawful;
    MirrorsAlways(env, events);
    var s, attempts := Exec(env, events), Attempts(events);
    if k !in s.entries && env.path(k) in s.disk {
      assert FileHolds(env, s, k, attempts[k]);
      ReadsAttempt(env, k, attempts[k], s.disk[env.path(k)]);
    }
  }

  /** The record a lookup goes by. */
  ghost function Source(env: Env, events: seq<Event>, k: Key): (r: Option<Record>) {
    var s := Exec(env, events);
    if k in s.entries && k in Latest(env, events) then Some(Latest(env, events)[k])
    else if env.path(k) in s.disk && k in Attempts(events) then Readable(env, k, Attempts(events)[k])
    else None
  }

  /** A lookup of `k` at `now` returned nothing, or the latest successful store of `k` and that while fresh. */
  ghost predicate LatestOrNothing(env: Env, events: seq<Event>, k: Key, now: int, answer: Option<Response>) {
    var latest := Latest(env, events);
    answer.Some? ==> k in latest && answer.value == latest[k].response && latest[k].FreshAt(now)
  }

  ghost predicate AlwaysLatestOrNothing(env: Env, events: seq<Event>, k: Key) {
    forall now, tick, stuck ::
      LatestOrNothing(env, events, k, now, Retrieved(env, Exec(env, events), k, now, tick, stuck).1)
  }

  /** Lookups of `k` return the latest successful store or nothing, at every time, if and only if there is nothing to
      go by, or what they go by repeats the latest success and expires no later. */
  lemma {:induction false} LatestOrNothingExactly(env: Env, events: seq<Event>, k: Key)
    requires env.Lawful()
    ensures AlwaysLatestOrNothing(env, events, k) <==>
      var latest, source := Latest(env, events), Source(env, events, k);
      || source.None?
      || (k in latest && source.value.response == latest[k].response && source.value.Expiry() <= latest[k].Expiry())
  {
    hide Exec, Latest, Source, Retrieved;
    var source := Source(env, events, k);
    forall now, tick, stuck
      ensures Retrieved(env, Exec(env, events), k, now, tick, stuck).1
           == if source.Some? && source.value.FreshAt(now) then Some(source.value.response) else None
    {
      LookupExactly(env, events, k, now, tick, stuck);
    }
    if source.Some? && AlwaysLatestOrNothing(env, events, k) {
      var last := source.value.Expiry();
      assert LatestOrNothing(env, events, k, last, Retrieved(env, Exec(env, events), k, last, 0, false).1);
    }
  }

  /** A lookup can fail to be so: one store, torn `j` bytes into its body, is nobody's success, and is served cut short
      as long as it is fresh. */
  lemma {:induction false} TornBodyIsServed(env: Env, maxSize: int, k: Key, r: Response, ttl: int, now: int, j: nat,
                                            later: int, tick: int, stuck: bool)
    requires env.Lawful() && env.Fits(Meta(k, r.status, r.headers, ttl, now)) && j < |r.body| && later <= now + ttl
    ensures var torn := Torn(4 + |env.encode(Meta(k, r.status, r.headers, ttl, now))| + j);
      var events := [StoreE(k, r, ttl, now, now, [], {}, torn)];
      && LegalRun(env, maxSize, events) && Latest(env, events) == map[]
      && Retrieved(env, Exec(env, events), k, later, tick, stuck).1 == Some(r.(body := r.body[..j]))
      && !AlwaysLatestOrNothing(env, events, k)
  {
    hide FileBytes, ReadFile, Env.Lawful, Env.Fits, Retrieved;
    var torn := Torn(4 + |env.encode(Meta(k, r.status, r.headers, ttl, now))| + j);
    var e := StoreE(k, r, ttl, now, now, [], {}, torn);
    var events := [e];
    assert events[..0] == [];
    var s := Exec(env, events);
    assert events[..|events| - 1] == [] && events[|events| - 1] == e && Exec(env, []) == EMPTY;
    assert s == Step(env, EMPTY, e) && RemovedAll(env, EMPTY, [], {}) == EMPTY;
    assert s.entries == map[] && env.path(k) in s.disk;
    assert Attempts(events) == map[k := Attempt(Record(r, ttl, now), torn)];
    LookupExactly(env, events, k, later, tick, stuck);
    LatestOrNothingExactly(env, events, k);
  }

  /** Over any run, a lookup of a key whose last write was not torn returns nothing or exactly the latest successful
      store of that key, and then only while it is fresh. */
  lemma {:induction false} ReadsLatestOrNothing(env: Env, events: seq<Event>, k: Key, now: int, tick: int, stuck: bool)
    requires env.Lawful() && Intact(env, events, k)
    ensures LatestOrNothing(env, events, k, now, Retrieved(env, Exec(env, events), k, now, tick, stuck).1)
  {
    hide Exec, Latest, Attempts, Readable, Retrieved, Intact;
    IntactIsLatest(env, events, k);
    LookupExactly(env, events, k, now, tick, stuck);
  }

  /** And it answers exactly when the key is indexed or has a file and its latest store is still fresh. */
  lemma {:induction false} AnswersExactly(env: Env, events: seq<Event>, k: Key, now: int, tick: int, stuck: bool)
    requires env.Lawful() && Intact(env, events, k)
    ensures var s, latest := Exec(env, events), Latest(env, events);
      Retrieved(env, s, k, now, tick, stuck).1.Some? <==>
        (k in s.entries || env.path(k) in s.disk) && k in latest && latest[k].FreshAt(now)
  {
    hide Exec, Latest, Attempts, Readable, Retrieved, Intact;
    IntactIsLatest(env, events, k);
    LookupExactly(env, events, k, now, tick, stuck);
  }

  /** Losing the memory index changes no answer about `k`. */
  ghost predicate PathsAgree(env: Env, s: Cache, k: Key) {
    forall now, tick, stuck ::
      Retrieved(env, s, k, now, tick, stuck).1 == Retrieved(env, s.(entries := map[]), k, now, tick, stuck).1
  }

  /** The memory path and the disk path agree on `k` if and only if it is not indexed, or what is readable of its last
      attempt has the response and the expiry of its latest success. */
  lemma {:induction false} MemoryAndDiskAgree(env: Env, events: seq<Event>, k: Key)
    requires env.Lawful()
    ensures var s, latest, attempts := Exec(env, events), Latest(env, events), Attempts(events);
      && (k in s.entries ==> k in latest && k in attempts)
      && (PathsAgree(env, s, k) <==>
            || k !in s.entries
            || var r := Readable(env, k, attempts[k]);
               r.Some? && r.value.response == latest[k].response && r.value.Expiry() == latest[k].Expiry())
      && (Intact(env, events, k) ==> PathsAgree(env, s, k))
  {
    hide Image, Readable, ReadFile, Exec, Latest, Attempts, Removed, Env.Lawful, Intact;
    MirrorsAlways(env, events);
    var s, latest, attempts := Exec(env, events), Latest(env, events), Attempts(events);
    var bare := s.(entries := map[]);
    if k in s.entries {
      assert FileHolds(env, s, k, attempts[k]);
      ReadsAttempt(env, k, attempts[k], s.disk[env.path(k)]);
      var r := Readable(env, k, attempts[k]);
      assert forall now, tick, stuck ::
        Retrieved(env, s, k, now, tick, stuck).1 == if latest[k].FreshAt(now) then Some(latest[k].response) else None;
      assert forall now, tick, stuck ::
        Retrieved(env, bare, k, now, tick, stuck).1
          == if r.Some? && r.value.FreshAt(now) then Some(r.value.response) else None;
      AgreeExactly(env, s, bare, k, latest[k], r);
    }
    if Intact(env, events, k) { IntactIsLatest(env, events, k); }
  }

  /** Two answers that each last up to an expiry are the same at all times exactly if response and expiry are. */
  lemma {:induction false} AgreeExactly(env: Env, s: Cache, bare: Cache, k: Key, a: Record, b: Option<Record>)
    requires bare == s.(entries := map[])
    requires forall now, tick, stuck ::
      Retrieved(env, s, k, now, tick, stuck).1 == if a.FreshAt(now) then Some(a.response) else None
    requires forall now, tick, stuck ::
      Retrieved(env, bare, k, now, tick, stuck).1
        == if b.Some? && b.value.FreshAt(now) then Some(b.value.response) else None
    ensures PathsAgree(env, s, k) <==> b.Some? && b.value.response == a.response && b.value.Expiry() == a.Expiry()
  {
    hide Retrieved;
    if PathsAgree(env, s, k) {
      assert Retrieved(env, s, k, a.Expiry(), 0, false).1 == Retrieved(env, bare, k, a.Expiry(), 0, false).1;
      assert b.Some?;
      var late := b.value.Expiry();
      assert Retrieved(env, s, k, late, 0, false).1 == Retrieved(env, bare, k, late, 0, false).1;
    }
  }

  /** `CacheManager.is_stale` (a lookup that misses on a key still indexed) never holds. */
  lemma {:induction false} NeverStale(env: Env, s: Cache, k: Key, now: int, tick: int, stuck: bool)
    ensures var (t, r) := Retrieved(env, s, k, now, tick, stuck); !(r.None? && k in t.entries)
  {
    hide ReadFile;
  }

  /** A lookup that finds its key out of date takes away the entry, and the file unless deleting it fails; a lookup that
      answers only stamps the entry; any other changes nothing. */
  lemma {:induction false} LookupChanges(env: Env, s: Cache, k: Key, now: int, tick: int, stuck: bool)
    ensures var (t, r) := Retrieved(env, s, k, now, tick, stuck);
      var file := if env.path(k) in s.disk then ReadFile(env, s.disk[env.path(k)]) else None;
      && (k in s.entries && now > s.entries[k].created + s.entries[k].ttl ==>
            r.None? && k !in t.entries && (!stuck ==> env.path(k) !in t.disk))
      && (k !in s.entries && file.Some? && now > file.value.0.created + file.value.0.ttl ==>
            r.None? && t.entries == s.entries && (!stuck ==> env.path(k) !in t.disk))
      && (r.Some? ==> t.disk == s.disk && t.size == s.size && t.entries.Keys == s.entries.Keys)
      && (r.Some? && k in s.entries ==> t.entries[k] == s.entries[k].(lastAccess := tick))
      && (forall j :: j in s.entries && j != k ==> j in t.entries && t.entries[j] == s.entries[j])
      && (forall p :: p in s.disk && p != env.path(k) ==> p in t.disk && t.disk[p] == s.disk[p])
      && (r.None? && k !in s.entries && file.None? ==> t == s)
  {
    hide ReadFile;
  }

  // ---- Size accounting -----------------------------------------------------------------------------

  /** The bytes the live entries really hold. */
  ghost function Total(entries: map<Key, Entry>): (n: nat)
    decreases |entries|
  {
    if entries == map[] then 0
    else
      var k :| k in entries;
      ShrinksBy(entries, k);
      |entries[k].body| + Total(entries - {k})
  }

  lemma {:induction false} TotalWithout(entries: map<Key, Entry>, k: Key)
    requires k in entries
    ensures Total(entries) == |entries[k].body| + Total(entries - {k})
    decreases |entries|
  {
    var j :| j in entries && Total(entries) == |entries[j].body| + Total(entries - {j});
    if j != k {
      ShrinksBy(entries, j);
      TotalWithout(entries - {j}, k);
      ShrinksBy(entries, k);
      TotalWithout(entries - {k}, j);
      assert entries - {j} - {k} == entries - {k} - {j};
    }
  }

  lemma {:induction false} TotalUpdate(entries: map<Key, Entry>, k: Key, e: Entry)
    ensures Total(entries[k := e]) == |e.body| + Total(entries) - if k in entries then |entries[k].body| else 0
  {
    TotalWithout(entries[k := e], k);
    assert entries[k := e] - {k} == entries - {k};
    if k in entries { TotalWithout(entries, k); } else { assert entries - {k} == entries; }
  }

  /** The bytes of entries that a store overwrote while they were live, since the last restart. */
  ghost function Leak(env: Env, events: seq<Event>): (n: nat)
  {
    if events == [] then 0
    else
      var prior, e := events[..|events| - 1], events[|events| - 1];
      if e.RestartE? then 0
      else if Succeeds(env, e) then
        Leak(env, prior) + Overwritten(RemovedAll(env, Exec(env, prior), e.victims, e.stuck).entries, e.key)
      else Leak(env, prior)
  }

  function Overwritten(entries: map<Key, Entry>, k: Key): nat { if k in entries then |entries[k].body| else 0 }

  lemma {:induction false} RemovedCounts(env: Env, s: Cache, k: Key, stuck: bool, leak: nat)
    requires s.size == Total(s.entries) + leak
    ensures Removed(env, s, k, stuck).size == Total(Removed(env, s, k, stuck).entries) + leak
    ensures k in s.entries ==> Removed(env, s, k, stuck).size == s.size - |s.entries[k].body|
  {
    if k in s.entries { TotalWithout(s.entries, k); } else { assert s.entries - {k} == s.entries; }
  }

  lemma {:induction false} RemovedAllCounts(env: Env, s: Cache, ks: seq<Key>, stuck: set<Key>, leak: nat)
    requires s.size == Total(s.entries) + leak
    ensures RemovedAll(env, s, ks, stuck).size == Total(RemovedAll(env, s, ks, stuck).entries) + leak
    decreases |ks|
  {
    hide Total, Removed;
    if ks != [] {
      RemovedCounts(env, s, ks[0], ks[0] in stuck, leak);
      RemovedAllCounts(env, Removed(env, s, ks[0], ks[0] in stuck), ks[1..], stuck, leak);
    }
  }

  /** The counter is the live total plus exactly the bytes overwritten in place, in every run: it never falls
      below the live total, it equals it if and only if nothing non-empty was overwritten live, and the
      `max(0, ...)` of `_remove` never takes effect. */
  lemma {:induction false} CounterIsTotalPlusLeak(env: Env, events: seq<Event>)
    ensures var s := Exec(env, events);
      && s.size == Total(s.entries) + Leak(env, events)
      && forall k :: k in s.entries ==> s.size - |s.entries[k].body| >= 0
  {
    hide FileBytes, ReadFile, Total;
    if events != [] {
      var prior, e := events[..|events| - 1], events[|events| - 1];
      CounterIsTotalPlusLeak(env, prior);
      StepCounts(env, Exec(env, prior), e, Leak(env, prior));
    } else {
      TotalNothing();
    }
    var s := Exec(env, events);
    forall k | k in s.entries ensures s.size - |s.entries[k].body| >= 0 {
      TotalWithout(s.entries, k);
    }
  }

  lemma {:induction false} TotalNothing()
    ensures Total(map[]) == 0
  {
  }

  lemma {:induction false} StepCounts(env: Env, s: Cache, e: Event, leak: nat)
    requires s.size == Total(s.entries) + leak
    ensures var t := Step(env, s, e);
      t.size == Total(t.entries) +
        if e.RestartE? then 0
        else if Succeeds(env, e) then leak + Overwritten(RemovedAll(env, s, e.victims, e.stuck).entries, e.key)
        else leak
  {
    hide FileBytes, ReadFile, Total, RemovedAll;
    match e {
      case StoreE(k, r, ttl, now, tick, victims, stuck, w) =>
        RemovedAllCounts(env, s, victims, stuck, leak);
        TotalUpdate(RemovedAll(env, s, victims, stuck).entries, k, Entry(r.status, r.headers, r.body, ttl, now, tick));
      case RetrieveE(k, now, tick, stuck) =>
        RemovedCounts(env, s, k, stuck, leak);
        if k in s.entries { TotalUpdate(s.entries, k, s.entries[k].(lastAccess := tick)); }
      case PurgeE(ks, stuck) =>
        RemovedAllCounts(env, s, ks, stuck, leak);
      case RestartE =>
        TotalNothing();
    }
  }

  /** What the eviction loop leaves: room for the new body, or no entries at all. */
  lemma {:induction false} EvictsMakesRoom(env: Env, s: Cache, victims: seq<Key>, stuck: set<Key>, need: nat,
                                           maxSize: int)
    requires Evicts(env, s, victims, stuck, need, maxSize)
    ensures !NeedsRoom(RemovedAll(env, s, victims, stuck), need, maxSize)
    decreases |victims|
  {
    hide LeastRecent, Removed;
    if victims != [] {
      EvictsMakesRoom(env, Removed(env, s, victims[0], victims[0] in stuck), victims[1..], stuck, need, maxSize);
    }
  }

  /** If no stored body exceeds the capacity, the live entries together never do. */
  lemma {:induction false} LiveWithinCapacity(env: Env, maxSize: nat, events: seq<Event>)
    requires LegalRun(env, maxSize, events)
    requires forall i :: 0 <= i < |events| && Succeeds(env, events[i]) ==> |events[i].response.body| <= maxSize
    ensures Total(Exec(env, events).entries) <= maxSize
  {
    hide FileBytes, ReadFile, Total, Evicts;
    if events == [] {
      TotalNothing();
    } else {
      var prior, e := events[..|events| - 1], events[|events| - 1];
      assert forall i :: 0 <= i < |prior| ==> prior[i] == events[i] && prior[..i] == events[..i];
      LiveWithinCapacity(env, maxSize, prior);
      CounterIsTotalPlusLeak(env, prior);
      StepWithinCapacity(env, maxSize, Exec(env, prior), e, Leak(env, prior));
    }
  }

  /** From a state within capacity, an operation stays within it if and only if it is not a store of a larger body. */
  lemma {:induction false} StepWithinCapacity(env: Env, maxSize: nat, s: Cache, e: Event, leak: nat)
    requires s.size == Total(s.entries) + leak && Total(s.entries) <= maxSize
    requires e.StoreE? ==> Evicts(env, s, e.victims, e.stuck, |e.response.body|, maxSize)
    ensures Total(Step(env, s, e).entries) <= maxSize <==> (Succeeds(env, e) ==> |e.response.body| <= maxSize)
  {
    hide FileBytes, ReadFile, Total, Evicts, RemovedAll, Image;
    match e {
      case StoreE(k, r, ttl, now, tick, victims, stuck, w) =>
        var s1 := RemovedAll(env, s, victims, stuck);
        EvictsMakesRoom(env, s, victims, stuck, |r.body|, maxSize);
        RemovedAllCounts(env, s, victims, stuck, leak);
        RemovedAllShrinks(env, s, victims, stuck);
        TotalUpdate(s1.entries, k, Entry(r.status, r.headers, r.body, ttl, now, tick));
        if k in s1.entries { TotalWithout(s1.entries, k); }
        TotalNothing();
      case RetrieveE(k, now, tick, stuck) =>
        RemovedAllShrinks(env, s, [k], if stuck then {k} else {});
        RemovedAllOne(env, s, k, stuck);
        if k in s.entries { TotalUpdate(s.entries, k, s.entries[k].(lastAccess := tick)); }
      case PurgeE(ks, stuck) =>
        RemovedAllShrinks(env, s, ks, stuck);
      case RestartE =>
        TotalNothing();
    }
  }

  lemma {:induction false} RemovedAllOne(env: Env, s: Cache, k: Key, stuck: bool)
    ensures RemovedAll(env, s, [k], if stuck then {k} else {}) == Removed(env, s, k, stuck)
  {
    assert [k][1..] == [];
  }

  lemma {:induction false} RemovedAllShrinks(env: Env, s: Cache, ks: seq<Key>, stuck: set<Key>)
    ensures Total(RemovedAll(env, s, ks, stuck).entries) <= Total(s.entries)
    decreases |ks|
  {
    hide Total;
    if ks != [] {
      var t := Removed(env, s, ks[0], ks[0] in stuck);
      if ks[0] in s.entries { TotalWithout(s.entries, ks[0]); } else { assert t.entries == s.entries; }
      RemovedAllShrinks(env, t, ks[1..], stuck);
    }
  }

  /** Everything evicted was last used no later than every entry that survives. */
  lemma {:induction false} EvictsOldestFirst(env: Env, s: Cache, victims: seq<Key>, stuck: set<Key>,
                                             need: nat, maxSize: int, v: Key, j: Key)
    requires Evicts(env, s, victims, stuck, need, maxSize)
    requires v in victims && j in RemovedAll(env, s, victims, stuck).entries
    ensures v in s.entries && j in s.entries && s.entries[v].lastAccess <= s.entries[j].lastAccess
    decreases |victims|
  {
    var t := Removed(env, s, victims[0], victims[0] in stuck);
    RemovedAllSubset(env, t, victims[1..], stuck, j);
    if v != victims[0] {
      EvictsOldestFirst(env, t, victims[1..], stuck, need, maxSize, v, j);
    }
  }

  /** When a key was last stored or looked up. */
  function LastUse(env: Env, events: seq<Event>, k: Key): (t: int)
  {
    if events == [] then 0
    else
      var e := events[|events| - 1];
      if (Succeeds(env, e) && e.key == k) || (e.RetrieveE? && e.key == k) then e.tick
      else LastUse(env, events[..|events| - 1], k)
  }

  lemma {:induction false} AccessTimesExact(env: Env, events: seq<Event>, k: Key)
    requires k in Exec(env, events).entries
    ensures Exec(env, events).entries[k].lastAccess == LastUse(env, events, k)
  {
    hide FileBytes, ReadFile, Env.Lawful;
    var prior, e := events[..|events| - 1], events[|events| - 1];
    var s := Exec(env, prior);
    match e {
      case StoreE(j, r, ttl, now, tick, victims, stuck, w) =>
        if k != j || !Succeeds(env, e) { RemovedAllSubset(env, s, victims, stuck, k); }
      case PurgeE(ks, stuck) => RemovedAllSubset(env, s, ks, stuck, k);
      case _ =>
    }
    if k in s.entries { AccessTimesExact(env, prior, k); }
  }

  /** In every run, what a store evicts was last stored or looked up no later than anything that survives it. */
  lemma {:induction false} EvictsLeastRecentlyUsed(env: Env, maxSize: int, events: seq<Event>, e: Event, v: Key, j: Key)
    requires e.StoreE? && Evicts(env, Exec(env, events), e.victims, e.stuck, |e.response.body|, maxSize)
    requires v in e.victims && j in RemovedAll(env, Exec(env, events), e.victims, e.stuck).entries
    ensures LastUse(env, events, v) <= LastUse(env, events, j)
  {
    hide Exec, Evicts, RemovedAll;
    EvictsOldestFirst(env, Exec(env, events), e.victims, e.stuck, |e.response.body|, maxSize, v, j);
    AccessTimesExact(env, events, v);
    AccessTimesExact(env, events, j);
  }

  /** A removed key is gone from the index and, unless its deletion failed, from the disk; every other key is
      untouched. */
  lemma {:induction false} PurgedIsGone(env: Env, s: Cache, ks: seq<Key>, stuck: set<Key>, k: Key)
    requires env.Lawful()
    ensures var t := RemovedAll(env, s, ks, stuck);
      && (k in ks ==> k !in t.entries && (k !in stuck ==> env.path(k) !in t.disk))
      && (k !in ks ==>
            && (k in t.entries <==> k in s.entries) && (k in s.entries ==> t.entries[k] == s.entries[k])
            && (env.path(k) in t.disk <==> env.path(k) in s.disk)
            && (env.path(k) in s.disk ==> t.disk[env.path(k)] == s.disk[env.path(k)]))
    decreases |ks|
  {
    if ks != [] {
      hide Env.Lawful;
      var t := Removed(env, s, ks[0], ks[0] in stuck);
      PurgedIsGone(env, t, ks[1..], stuck, k);
      if k != ks[0] { PathsDiffer(env, k, ks[0]); }
      else if k !in ks[1..] { assert k !in t.entries && (k !in stuck ==> env.path(k) !in t.disk); }
    }
  }

  lemma {:induction false} RemovedAllSubset(env: Env, s: Cache, ks: seq<Key>, stuck: set<Key>, j: Key)
    requires j in RemovedAll(env, s, ks, stuck).entries
    ensures j in s.entries && s.entries[j] == RemovedAll(env, s, ks, stuck).entries[j]
    decreases |ks|
  {
    if ks != [] { RemovedAllSubset(env, Removed(env, s, ks[0], ks[0] in stuck), ks[1..], stuck, j); }
  }

  /** Once the leaked bytes and a new body exceed the capacity, a store throws everything else away: the leak
      is never recovered, so the cache then holds one entry at a time. */
  lemma {:induction false} LeakEmptiesCache(env: Env, maxSize: int, events: seq<Event>, e: Event)
    requires Succeeds(env, e)
    requires Evicts(env, Exec(env, events), e.victims, e.stuck, |e.response.body|, maxSize)
    requires Leak(env, events) + |e.response.body| > maxSize
    ensures Step(env, Exec(env, events), e).entries.Keys == {e.key}
  {
    hide FileBytes, ReadFile, Total, Evicts, RemovedAll, Exec, Leak;
    var s := Exec(env, events);
    CounterIsTotalPlusLeak(env, events);
    RemovedAllCounts(env, s, e.victims, e.stuck, Leak(env, events));
    EvictsMakesRoom(env, s, e.victims, e.stuck, |e.response.body|, maxSize);
    assert RemovedAll(env, s, e.victims, e.stuck).entries == map[];
  }

  /** Storing the same key twice leaves the counter at the sum of both bodies. */
  lemma {:induction false} OverwriteLeaks(env: Env, k: Key, r: Response, now: int)
    requires r.body != [] && env.Fits(Meta(k, r.status, r.headers, 60, now))
    ensures var store := StoreE(k, r, 60, now, now, [], {}, Done);
      var s := Exec(env, [store, store]);
      && LegalRun(env, 2 * |r.body|, [store, store])
      && Total(s.entries) == |r.body| && s.size == 2 * |r.body|
  {
    hide FileBytes, Total;
    var store := StoreE(k, r, 60, now, now, [], {}, Done);
    var run := [store, store];
    assert run[..1] == [store] && [store][..0] == [] && run[..0] == [];
    var s1, s2 := Exec(env, [store]), Exec(env, run);
    TotalNothing();
    TotalUpdate(map[], k, Entry(r.status, r.headers, r.body, 60, now, now));
    TotalUpdate(s1.entries, k, Entry(r.status, r.headers, r.body, 60, now, now));
  }

  /** So the leak evicts entries that would fit: after two stores of one key, a store of another evicts the first
      although both bodies together stay below the capacity. */
  lemma {:induction false} LeakEvictsNeedlessly(env: Env, k: Key, j: Key, r: Response, now: int)
    requires k != j && r.body != []
    requires env.Fits(Meta(k, r.status, r.headers, 60, now)) && env.Fits(Meta(j, r.status, r.headers, 60, now))
    ensures var store := StoreE(k, r, 60, now, now, [], {}, Done);
      var run := [] + [store] + [store] + [StoreE(j, r, 60, now, now, [k], {}, Done)];
      && LegalRun(env, 3 * |r.body| - 1, run) && 2 * |r.body| <= 3 * |r.body| - 1
      && Exec(env, run).entries.Keys == {j}
  {
    var store, last := StoreE(k, r, 60, now, now, [], {}, Done), StoreE(j, r, 60, now, now, [k], {}, Done);
    var max := 3 * |r.body| - 1;
    var r0: seq<Event> := [];
    assert Exec(env, r0) == EMPTY && LegalRun(env, max, r0);
    hide Env.Fits, Exec, LegalRun, Evicts, RemovedAll, Step;
    StoresOver(env, max, r0, k, r, now);
    StoresOver(env, max, r0 + [store], k, r, now);
    EvictsTheOnlyOne(env, Exec(env, r0 + [store] + [store]), k, |r.body|, max);
    OneMore(env, max, r0 + [store] + [store], last);
    StoresInstead(env, Exec(env, r0 + [store] + [store]), j, [k], r, now);
  }

  /** A store with room for it: the entry is set, and its size is added. */
  lemma {:induction false} StoresOver(env: Env, maxSize: int, events: seq<Event>, k: Key, r: Response, now: int)
    requires env.Fits(Meta(k, r.status, r.headers, 60, now)) && LegalRun(env, maxSize, events)
    requires !NeedsRoom(Exec(env, events), |r.body|, maxSize)
    ensures var s, run := Exec(env, events), events + [StoreE(k, r, 60, now, now, [], {}, Done)];
      && LegalRun(env, maxSize, run)
      && Exec(env, run).entries.Keys == s.entries.Keys + {k} && Exec(env, run).size == s.size + |r.body|
  {
    EvictsNobody(env, Exec(env, events), |r.body|, maxSize);
    OneMore(env, maxSize, events, StoreE(k, r, 60, now, now, [], {}, Done));
    hide Env.Fits, Exec, LegalRun, Evicts, RemovedAll, Image;
  }

  /** A store whose victims are all there was. */
  lemma {:induction false} StoresInstead(env: Env, s: Cache, j: Key, victims: seq<Key>, r: Response, now: int)
    requires env.Fits(Meta(j, r.status, r.headers, 60, now)) && RemovedAll(env, s, victims, {}).entries == map[]
    ensures Step(env, s, StoreE(j, r, 60, now, now, victims, {}, Done)).entries.Keys == {j}
  {
    hide Env.Fits, RemovedAll, Image;
  }

  lemma {:induction false} OneMore(env: Env, maxSize: int, events: seq<Event>, e: Event)
    ensures Exec(env, events + [e]) == Step(env, Exec(env, events), e)
    ensures LegalRun(env, maxSize, events)
      && (e.StoreE? ==> Evicts(env, Exec(env, events), e.victims, e.stuck, |e.response.body|, maxSize))
      ==> LegalRun(env, maxSize, events + [e])
  {
    hide Step, Evicts;
    var longer := events + [e];
    assert longer[..|events|] == events;
    assert forall i :: 0 <= i < |events| ==> longer[i] == events[i] && longer[..i] == events[..i];
  }

  lemma {:induction false} EvictsNobody(env: Env, s: Cache, need: nat, maxSize: int)
    requires !NeedsRoom(s, need, maxSize)
    ensures Evicts(env, s, [], {}, need, maxSize) && RemovedAll(env, s, [], {}) == s
  {
  }

  lemma {:induction false} EvictsTheOnlyOne(env: Env, s: Cache, k: Key, need: nat, maxSize: int)
    requires s.entries.Keys == {k} && s.size + need > maxSize
    ensures Evicts(env, s, [k], {}, need, maxSize) && RemovedAll(env, s, [k], {}).entries == map[]
  {
    var t := Removed(env, s, k, false);
    assert t.entries == map[];
    assert [k][1..] == [] && RemovedAll(env, t, [], {}) == t;
    assert Evicts(env, t, [], {}, need, maxSize);
  }
}
