/** Client registry and network records (server/registry.py, server/network_manager.py): the membership
    relation is stored twice, once per client and once per network. */
module Membership {
  import opened Bytes

  type Id = string

  datatype Endpoint = Endpoint(host: string, port: int)

  datatype Client = Client(publicKeyPem: string, endpoint: Option<Endpoint>, lastHeartbeat: real, online: bool,
                           networks: set<Id>, banned: bool, clientIp: Option<string>)

  function NewClient(pem: string, now: real): Client { Client(pem, None, now, false, {}, false, None) }

  datatype Topology = Mesh | HubAndSpoke | Gateway | Unsupported

  datatype Network = Network(name: string, owner: Id, topology: Topology, members: set<Id>,
                             hub: Option<Id>, gateway: Option<Id>)

  datatype World = World(
    clients: map<Id, Client>,
    networks: map<Id, Network>,
    bannedNetworks: set<Id>,
    codes: map<string, Id>,
    networkCodes: map<Id, string>,
    providers: Providers)

  /** Per network, the provider of each exposed service. */
  type Providers = map<Id, map<Id, Id>>

  const EMPTY := World(map[], map[], {}, map[], map[], map[])

  /** The registry's copy of "client belongs to network". */
  predicate Listed(w: World, c: Id, n: Id) { c in w.clients && n in w.clients[c].networks }

  /** The network record's copy. */
  predicate Member(w: World, n: Id, c: Id) { n in w.networks && c in w.networks[n].members }

  ghost predicate Agree(w: World) { forall c: Id, n: Id :: Listed(w, c, n) <==> Member(w, n, c) }

  // ---- Operations as functions of the stored state -----------------------------

  function Enlisted(clients: map<Id, Client>, c: Id, n: Id): (r: map<Id, Client>)
  {
    if c in clients then clients[c := clients[c].(networks := clients[c].networks + {n})] else clients
  }

  function Unlisted(clients: map<Id, Client>, c: Id, n: Id): (r: map<Id, Client>)
  {
    if c in clients then clients[c := clients[c].(networks := clients[c].networks - {n})] else clients
  }

  function Registered(clients: map<Id, Client>, c: Id, pem: string, now: real): (r: map<Id, Client>)
  {
    clients[c := if c in clients then clients[c].(publicKeyPem := pem) else NewClient(pem, now)]
  }

  function MarkedOnline(clients: map<Id, Client>, c: Id, now: real): (r: (map<Id, Client>, bool))
  {
    if c !in clients || clients[c].banned then (clients, false)
    else (clients[c := clients[c].(online := true, lastHeartbeat := now)], true)
  }

  function EndpointUpdated(clients: map<Id, Client>, c: Id, addr: Endpoint): (r: map<Id, Client>)
  {
    if c !in clients then clients else clients[c := clients[c].(endpoint := Some(addr), clientIp := Some(addr.host))]
  }

  function Unregistered(clients: map<Id, Client>, c: Id): (r: map<Id, Client>)
  {
    if c !in clients then clients else clients[c := clients[c].(online := false, endpoint := None)]
  }

  function Beaten(clients: map<Id, Client>, c: Id, now: real): (r: (map<Id, Client>, bool))
  {
    if c !in clients then (clients, false)
    else (clients[c := clients[c].(lastHeartbeat := now, online := true)], true)
  }

  /** The online clients whose last heartbeat is older than `cutoff`. */
  function StaleIn(clients: map<Id, Client>, cutoff: real): (r: set<Id>)
  {
    set c | c in clients && clients[c].online && clients[c].lastHeartbeat < cutoff
  }

  function MarkedOffline(clients: map<Id, Client>, stale: set<Id>): (r: map<Id, Client>)
  {
    map c | c in clients :: if c in stale then clients[c].(online := false) else clients[c]
  }

  function Forgotten(w: World, c: Id): (r: World) { w.(clients := w.clients - {c}) }

  /** `create`; false is the ValueError for an unsupported topology. */
  function Created(w: World, n: Id, name: string, owner: Id, topology: Topology): (r: (World, bool))
  {
    if topology.Unsupported? then (w, false)
    else
      var record := Network(name, owner, topology, {owner},
                            if topology.HubAndSpoke? then Some(owner) else None,
                            if topology.Gateway? then Some(owner) else None);
      (w.(networks := w.networks[n := record], clients := Enlisted(w.clients, owner, n)), true)
  }

  function Joined(w: World, n: Id, c: Id, passwordOk: bool): (r: (World, bool))
  {
    if n !in w.networks || n in w.bannedNetworks || !passwordOk then (w, false)
    else
      var record := w.networks[n];
      (w.(networks := w.networks[n := record.(members := record.members + {c})],
          clients := Enlisted(w.clients, c, n)), true)
  }

  function JoinedByCode(w: World, code: string, c: Id, passwordOk: bool): (r: (World, Option<Id>))
  {
    if code !in w.codes then (w, None)
    else
      var (t, ok) := Joined(w, w.codes[code], c, passwordOk);
      (t, if ok then Some(w.codes[code]) else None)
  }

  function WithoutMember(record: Network, c: Id): (r: Network)
  {
    record.(members := record.members - {c},
            hub := if record.hub == Some(c) then None else record.hub,
            gateway := if record.gateway == Some(c) then None else record.gateway)
  }

  function Departed(w: World, n: Id, c: Id): (r: (World, bool))
  {
    if !Member(w, n, c) then (w, false)
    else (w.(networks := w.networks[n := WithoutMember(w.networks[n], c)],
             clients := Unlisted(w.clients, c, n)), true)
  }

  function Delisted(clients: map<Id, Client>, members: set<Id>, n: Id): (r: map<Id, Client>)
  {
    map c | c in clients :: if c in members then clients[c].(networks := clients[c].networks - {n}) else clients[c]
  }

  function Deleted(w: World, n: Id, requester: Id): (r: (World, bool))
  {
    if n !in w.networks || w.networks[n].owner != requester then (w, false)
    else
      (w.(clients := Delisted(w.clients, w.networks[n].members, n),
          networks := w.networks - {n},
          codes := if n in w.networkCodes then w.codes - {w.networkCodes[n]} else w.codes,
          networkCodes := w.networkCodes - {n}), true)
  }

  function MemberOf(w: World, c: Id): (r: set<Id>) { set n | n in w.networks && c in w.networks[n].members }

  /** The records once `purge_client` has visited every network outside `todo`. */
  function PurgedNetworks(networks: map<Id, Network>, todo: set<Id>, c: Id): (r: map<Id, Network>)
  {
    map n | n in networks && (n in todo || networks[n].members != {c}) ::
      if n !in todo && c in networks[n].members then WithoutMember(networks[n], c) else networks[n]
  }

  function PurgedClients(clients: map<Id, Client>, removed: set<Id>, c: Id): (r: map<Id, Client>)
  {
    if c in clients then clients[c := clients[c].(networks := clients[c].networks - removed)] else clients
  }

  function Purged(w: World, c: Id): (r: (World, set<Id>))
  {
    var removed := MemberOf(w, c);
    (w.(networks := PurgedNetworks(w.networks, {}, c), clients := PurgedClients(w.clients, removed, c),
        providers := ProvidersWithout(w.providers, {}, c)), removed)
  }

  /** The services once `purge_client` has visited every network outside `todo`. */
  function ProvidersWithout(providers: Providers, todo: set<Id>, c: Id): (r: Providers)
  {
    map n | n in providers :: if n in todo then providers[n] else OthersServices(providers[n], c)
  }

  function OthersServices(services: map<Id, Id>, c: Id): (r: map<Id, Id>)
  {
    map s | s in services && services[s] != c :: services[s]
  }

  /** `expose_service`; false is the ValueError for a provider outside the network. */
  function Exposed(w: World, n: Id, c: Id, service: Id): (r: (World, bool))
  {
    if !Member(w, n, c) then (w, false)
    else
      var services := if n in w.providers then w.providers[n] else map[];
      (w.(providers := w.providers[n := services[service := c]]), true)
  }

  /** `unexpose_service`. */
  function Unexposed(w: World, n: Id, service: Id): (r: (World, bool))
  {
    if n !in w.providers || service !in w.providers[n] then (w, false)
    else (w.(providers := w.providers[n := w.providers[n] - {service}]), true)
  }

  /** One network's record without `c`, or no record if `c` was its last member. */
  function DroppedFrom(networks: map<Id, Network>, n: Id, c: Id): (r: map<Id, Network>)
    requires n in networks
  {
    if networks[n].members - {c} == {} then networks - {n} else networks[n := WithoutMember(networks[n], c)]
  }

  /** `s` lists the elements of `d`, each once. */
  ghost predicate Enumerates(s: seq<Id>, d: set<Id>) {
    (forall n :: n in s <==> n in d) && |s| == |d|
  }

  lemma {:induction false} EnumeratesNothing()
    ensures Enumerates([], {})
  {
  }

  lemma {:induction false} EnumeratesAppend(s: seq<Id>, d: set<Id>, n: Id)
    requires Enumerates(s, d) && n !in d
    ensures Enumerates(s + [n], d + {n})
  {
  }

  lemma {:induction false} PruneStart(clients: map<Id, Client>, cutoff: real)
    ensures MarkedOffline(clients, {}) == clients && StaleIn(clients, cutoff) - clients.Keys == {}
  {
  }

  /** Visiting one more client: what the loop body of `prune_stale` does. */
  lemma {:induction false} PruneOne(clients: map<Id, Client>, todo: set<Id>, done: set<Id>, c: Id, cutoff: real)
    requires c in todo && todo <= clients.Keys && done == StaleIn(clients, cutoff) - todo
    ensures var now := MarkedOffline(clients, done);
      && c !in done && now.Keys == clients.Keys && now[c] == clients[c]
      && (if clients[c].online && clients[c].lastHeartbeat < cutoff then
            && StaleIn(clients, cutoff) - (todo - {c}) == done + {c}
            && now[c := now[c].(online := false)] == MarkedOffline(clients, done + {c})
          else StaleIn(clients, cutoff) - (todo - {c}) == done)
  {
  }

  lemma {:induction false} PruneEnd(clients: map<Id, Client>, cutoff: real)
    ensures StaleIn(MarkedOffline(clients, StaleIn(clients, cutoff)), cutoff) == {}
  {
  }

  lemma {:induction false} PurgeStart(w: World, c: Id)
    ensures PurgedNetworks(w.networks, w.networks.Keys, c) == w.networks
    ensures PurgedClients(w.clients, {}, c) == w.clients
    ensures MemberOf(w, c) - w.networks.Keys == {}
  {
    if c in w.clients { assert w.clients[c].networks - {} == w.clients[c].networks; }
  }

  /** Visiting one more network: what the loop body does to the records and to the registry. */
  lemma {:induction false} PurgeOne(w: World, todo: set<Id>, done: set<Id>, n: Id, c: Id)
    requires n in todo && todo <= w.networks.Keys && done == MemberOf(w, c) - todo
    ensures var now := PurgedNetworks(w.networks, todo, c);
      var next := PurgedNetworks(w.networks, todo - {n}, c);
      && n in now && now[n] == w.networks[n]
      && (c !in now[n].members ==> next == now && MemberOf(w, c) - (todo - {n}) == done)
      && (c in now[n].members ==>
            && next == DroppedFrom(now, n, c)
            && n !in done && MemberOf(w, c) - (todo - {n}) == done + {n}
            && PurgedClients(w.clients, done + {n}, c) == Unlisted(PurgedClients(w.clients, done, c), c, n))
  {
    var now := PurgedNetworks(w.networks, todo, c);
    if c in now[n].members {
      assert now[n].members - {c} == {} <==> w.networks[n].members == {c};
      if c in w.clients {
        assert w.clients[c].networks - (done + {n}) == w.clients[c].networks - done - {n};
      }
    }
  }

  /** `generate_invite_code` for a live network without a code, once a code has been picked. */
  function CodeAssigned(w: World, n: Id, code: string): (r: World)
  {
    w.(codes := w.codes[code := n], networkCodes := w.networkCodes[n := code])
  }

  predicate AllTaken(tries: seq<string>, codes: map<string, Id>) { forall c :: c in tries ==> c in codes }

  // ---- The objects ------------------------------------------------------------------

  class ClientRegistry {
    var clients: map<Id, Client>

    constructor ()
      ensures clients == map[]
    {
      clients := map[];
    }

    method Register(c: Id, pem: string, now: real)
      modifies this
      ensures clients == Registered(old(clients), c, pem, now)
    {
      if c !in clients { clients := clients[c := NewClient(pem, now)]; }
      clients := clients[c := clients[c].(publicKeyPem := pem)];
    }

    method Unregister(c: Id)
      modifies this
      ensures clients == Unregistered(old(clients), c)
    {
      if c in clients {
        clients := clients[c := clients[c].(online := false)];
        clients := clients[c := clients[c].(endpoint := None)];
      }
    }

    method SetOnline(c: Id, now: real) returns (ok: bool)
      modifies this
      ensures (clients, ok) == MarkedOnline(old(clients), c, now)
    {
      if c !in clients || clients[c].banned { return false; }
      clients := clients[c := clients[c].(online := true)];
      clients := clients[c := clients[c].(lastHeartbeat := now)];
      assert clients == MarkedOnline(old(clients), c, now).0;
      return true;
    }

    method UpdateEndpoint(c: Id, addr: Endpoint)
      modifies this
      ensures clients == EndpointUpdated(old(clients), c, addr)
    {
      if c in clients {
        clients := clients[c := clients[c].(endpoint := Some(addr))];
        clients := clients[c := clients[c].(clientIp := Some(addr.host))];
      }
    }

    method Heartbeat(c: Id, now: real) returns (known: bool)
      modifies this
      ensures (clients, known) == Beaten(old(clients), c, now)
    {
      if c !in clients { return false; }
      clients := clients[c := clients[c].(lastHeartbeat := now)];
      clients := clients[c := clients[c].(online := true)];
      assert clients == Beaten(old(clients), c, now).0;
      return true;
    }

    method PruneStale(cutoff: real) returns (stale: seq<Id>)
      modifies this
      ensures clients == MarkedOffline(old(clients), StaleIn(old(clients), cutoff))
      ensures Enumerates(stale, StaleIn(old(clients), cutoff))
      ensures StaleIn(clients, cutoff) == {}
    {
      ghost var was, done := clients, {};
      var todo := clients.Keys;
      PruneStart(was, cutoff);
      EnumeratesNothing();
      hide Enumerates, StaleIn, MarkedOffline;
      stale := [];
      while todo != {}
        invariant todo <= clients.Keys == was.Keys
        invariant done == StaleIn(was, cutoff) - todo
        invariant clients == MarkedOffline(was, done) && Enumerates(stale, done)
        decreases todo
      {
        var c :| c in todo;
        PruneOne(was, todo, done, c, cutoff);
        todo := todo - {c};
        if clients[c].online && clients[c].lastHeartbeat < cutoff {
          clients := clients[c := clients[c].(online := false)];
          EnumeratesAppend(stale, done, c);
          stale, done := stale + [c], done + {c};
        }
      }
      assert StaleIn(was, cutoff) - {} == StaleIn(was, cutoff);
      PruneEnd(was, cutoff);
    }

    method AddNetwork(c: Id, n: Id)
      modifies this
      ensures clients == Enlisted(old(clients), c, n)
    {
      if c in clients {
        clients := clients[c := clients[c].(networks := clients[c].networks + {n})];
      }
    }

    method RemoveNetwork(c: Id, n: Id)
      modifies this
      ensures clients == Unlisted(old(clients), c, n)
    {
      if c in clients {
        clients := clients[c := clients[c].(networks := clients[c].networks - {n})];
      }
    }
  }

  datatype PeerAnswer = NoSharedNetwork | PeerUnavailable | PeerEndpoint(addr: Endpoint)

  class NetworkManager {
    const registry: ClientRegistry
    var networks: map<Id, Network>
    var bannedNetworks: set<Id>
    var codes: map<string, Id>
    var networkCodes: map<Id, string>
    var providers: Providers

    constructor (registry: ClientRegistry)
      ensures this.registry == registry
      ensures networks == map[] && bannedNetworks == {} && codes == map[] && networkCodes == map[] && providers == map[]
    {
      this.registry := registry;
      networks, bannedNetworks, codes, networkCodes, providers := map[], {}, map[], map[], map[];
    }

    function View(): World
      reads this, registry
    {
      World(registry.clients, networks, bannedNetworks, codes, networkCodes, providers)
    }

    method Create(n: Id, name: string, owner: Id, topology: Topology) returns (ok: bool)
      modifies this`networks, registry
      ensures (View(), ok) == Created(old(View()), n, name, owner, topology)
    {
      if topology.Unsupported? { return false; }
      var record := Network(name, owner, topology, {}, None, None);
      if topology.HubAndSpoke? { record := record.(hub := Some(owner)); }
      if topology.Gateway? { record := record.(gateway := Some(owner)); }
      record := record.(members := record.members + {owner});
      assert record.members == {owner};
      networks := networks[n := record];
      registry.AddNetwork(owner, n);
      return true;
    }

    method Join(n: Id, c: Id, passwordOk: bool) returns (ok: bool)
      modifies this`networks, registry
      ensures (View(), ok) == Joined(old(View()), n, c, passwordOk)
    {
      if n !in networks || n in bannedNetworks { return false; }
      if !passwordOk { return false; }
      networks := networks[n := networks[n].(members := networks[n].members + {c})];
      registry.AddNetwork(c, n);
      return true;
    }

    method JoinByInviteCode(code: string, c: Id, passwordOk: bool) returns (joined: Option<Id>)
      modifies this`networks, registry
      ensures (View(), joined) == JoinedByCode(old(View()), code, c, passwordOk)
    {
      if code !in codes { return None; }
      var n := codes[code];
      if n !in networks || n in bannedNetworks { return None; }
      if !passwordOk { return None; }
      networks := networks[n := networks[n].(members := networks[n].members + {c})];
      registry.AddNetwork(c, n);
      return Some(n);
    }

    method Leave(n: Id, c: Id) returns (ok: bool)
      modifies this`networks, registry
      ensures (View(), ok) == Departed(old(View()), n, c)
    {
      if n !in networks { return false; }
      var record := networks[n];
      if c !in record.members { return false; }
      record := record.(members := record.members - {c});
      registry.RemoveNetwork(c, n);
      if record.hub == Some(c) { record := record.(hub := None); }
      if record.gateway == Some(c) { record := record.(gateway := None); }
      networks := networks[n := record];
      return true;
    }

    method Delete(n: Id, requester: Id) returns (ok: bool)
      modifies this`networks, this`codes, this`networkCodes, registry
      ensures (View(), ok) == Deleted(old(View()), n, requester)
    {
      if n !in networks || networks[n].owner != requester { return false; }
      var todo := networks[n].members;
      ghost var members := todo;
      while todo != {}
        invariant todo <= members
        invariant registry.clients == Delisted(old(registry.clients), members - todo, n)
        invariant networks == old(networks) && codes == old(codes) && networkCodes == old(networkCodes)
        decreases todo
      {
        var c :| c in todo;
        registry.RemoveNetwork(c, n);
        todo := todo - {c};
      }
      if n in networkCodes {
        var code := networkCodes[n];
        networkCodes := networkCodes - {n};
        codes := codes - {code};
      } else {
        assert networkCodes - {n} == networkCodes;
      }
      assert members - {} == members;
      networks := networks - {n};
      return true;
    }

    method PurgeClient(c: Id) returns (removed: seq<Id>)
      modifies this`networks, this`providers, registry
      ensures View() == Purged(old(View()), c).0
      ensures Enumerates(removed, Purged(old(View()), c).1)
    {
      removed := PurgeMemberships(c);
      PurgeServices(c);
    }

    method PurgeServices(c: Id)
      modifies this`providers
      ensures providers == ProvidersWithout(old(providers), {}, c)
    {
      hide OthersServices;
      var todo := providers.Keys;
      while todo != {}
        invariant todo <= old(providers).Keys
        invariant providers == ProvidersWithout(old(providers), todo, c)
        decreases todo
      {
        var n :| n in todo;
        providers := providers[n := OthersServices(providers[n], c)];
        todo := todo - {n};
      }
    }

    method PurgeMemberships(c: Id) returns (removed: seq<Id>)
      modifies this`networks, registry
      ensures View() == Purged(old(View()), c).0.(providers := old(providers))
      ensures Enumerates(removed, Purged(old(View()), c).1)
    {
      hide PurgedNetworks, PurgedClients, Unlisted, DroppedFrom, MemberOf, Enumerates;
      EnumeratesNothing();
      removed := [];
      ghost var was := View();
      ghost var done: set<Id> := {};
      var todo := networks.Keys;
      PurgeStart(was, c);
      while todo != {}
        invariant todo <= was.networks.Keys && done == MemberOf(was, c) - todo
        invariant networks == PurgedNetworks(was.networks, todo, c)
        invariant registry.clients == PurgedClients(was.clients, done, c)
        invariant Enumerates(removed, done)
        invariant bannedNetworks == was.bannedNetworks && codes == was.codes && networkCodes == was.networkCodes
        decreases todo
      {
        var n :| n in todo;
        PurgeOne(was, todo, done, n, c);
        todo := todo - {n};
        var wasMember := PurgeFrom(n, c);
        if wasMember {
          EnumeratesAppend(removed, done, n);
          removed := removed + [n];
          done := done + {n};
        }
      }
      assert MemberOf(was, c) - {} == MemberOf(was, c);
    }

    /** The body of the `purge_client` loop for one network. */
    method PurgeFrom(n: Id, c: Id) returns (wasMember: bool)
      requires n in networks
      modifies this`networks, registry
      ensures wasMember <==> c in old(networks)[n].members
      ensures !wasMember ==> networks == old(networks) && registry.clients == old(registry.clients)
      ensures wasMember ==>
        && registry.clients == Unlisted(old(registry.clients), c, n)
        && networks == DroppedFrom(old(networks), n, c)
    {
      var record := networks[n];
      if c !in record.members { return false; }
      record := record.(members := record.members - {c});
      registry.RemoveNetwork(c, n);
      if record.hub == Some(c) { record := record.(hub := None); }
      if record.gateway == Some(c) { record := record.(gateway := None); }
      networks := networks[n := record];
      if record.members == {} { networks := networks - {n}; }
      assert networks == DroppedFrom(old(networks), n, c);
      return true;
    }

    method ExposeService(n: Id, c: Id, service: Id) returns (ok: bool)
      modifies this`providers
      ensures (View(), ok) == Exposed(old(View()), n, c, service)
    {
      if n !in networks || c !in networks[n].members { return false; }
      if n !in providers { providers := providers[n := map[]]; }
      providers := providers[n := providers[n][service := c]];
      assert providers == Exposed(old(View()), n, c, service).0.providers;
      return true;
    }

    method UnexposeService(n: Id, service: Id) returns (ok: bool)
      modifies this`providers
      ensures (View(), ok) == Unexposed(old(View()), n, service)
    {
      if n !in providers || service !in providers[n] { return false; }
      providers := providers[n := providers[n] - {service}];
      return true;
    }

    /** The search of `_on_request_peer_conn`: it walks the registry's copy, in the set's iteration order `order`, and
        tests the records' copy. */
    method FindShared(client: Id, peer: Id, order: seq<Id>) returns (found: Option<Id>)
      requires Enumerates(order, NetworksFor(View(), client))
      ensures found == FirstWith(View(), order, peer)
      ensures found.Some? ==> Listed(View(), client, found.value) && Member(View(), found.value, peer)
      ensures found.None? ==> forall n :: !(Listed(View(), client, n) && Member(View(), n, peer))
    {
      var i := 0;
      while i < |order|
        invariant 0 <= i <= |order|
        invariant FirstWith(View(), order[i..], peer) == FirstWith(View(), order, peer)
        invariant forall j :: 0 <= j < i ==> !Member(View(), order[j], peer)
      {
        var n := order[i];
        assert order[i..][0] == n && order[i..][1..] == order[i + 1..];
        if n in networks && peer in networks[n].members { return Some(n); }
        i := i + 1;
      }
      return None;
    }

    method SharedEndpointsFor(n: Id, requester: Id, target: Id) returns (r: Option<Endpoint>)
      ensures r == EndpointShown(View(), n, requester, target)
    {
      if n !in networks { return None; }
      if requester == target { return None; }
      if requester !in networks[n].members || target !in networks[n].members { return None; }
      if target !in registry.clients { return None; }
      var t := registry.clients[target];
      if !t.online || t.endpoint.None? { return None; }
      if networks[n].topology.HubAndSpoke? && networks[n].hub != Some(target) { return None; }
      return t.endpoint;
    }

    method OnRequestPeerConn(client: Id, peer: Id, order: seq<Id>) returns (r: PeerAnswer)
      requires Enumerates(order, NetworksFor(View(), client))
      ensures r == AnswerIn(View(), client, peer, order)
      ensures r.NoSharedNetwork? <==> forall n :: !(Listed(View(), client, n) && Member(View(), n, peer))
    {
      var found := FindShared(client, peer, order);
      if found.None? { return NoSharedNetwork; }
      var addr := SharedEndpointsFor(found.value, client, peer);
      if addr.None? { return PeerUnavailable; }
      return PeerEndpoint(addr.value);
    }

    /** `tries` are the random draws of the retry loop, `fallback` the name-based code used when all collide;
        None is the ValueError for an unknown network. */
    method GenerateInviteCode(n: Id, tries: seq<string>, fallback: string) returns (r: Option<string>)
      modifies this`codes, this`networkCodes
      ensures n !in networks ==> r.None? && View() == old(View())
      ensures n in networks && n in old(networkCodes) ==> r == Some(old(networkCodes)[n]) && View() == old(View())
      ensures n in networks && n !in old(networkCodes) ==>
        && r.Some? && View() == CodeAssigned(old(View()), n, r.value)
        && (if AllTaken(tries, old(codes)) then r.value == fallback
            else exists i ::
              0 <= i < |tries| && r.value == tries[i] && r.value !in old(codes) && AllTaken(tries[..i], old(codes)))
    {
      if n !in networks { return None; }
      if n in networkCodes { return Some(networkCodes[n]); }
      var i := 0;
      while i < |tries|
        invariant 0 <= i <= |tries|
        invariant View() == old(View()) && AllTaken(tries[..i], codes)
      {
        var code := tries[i];
        assert tries[..i + 1] == tries[..i] + [code];
        if code !in codes {
          codes := codes[code := n];
          networkCodes := networkCodes[n := code];
          return Some(code);
        }
        i := i + 1;
      }
      assert tries[..i] == tries;
      codes := codes[fallback := n];
      networkCodes := networkCodes[n := fallback];
      return Some(fallback);
    }
  }

  /** What `shared_endpoints_for` reveals: in hub-and-spoke networks only the hub's endpoint. */
  function EndpointShown(w: World, n: Id, requester: Id, target: Id): (r: Option<Endpoint>)
  {
    if requester != target && Member(w, n, requester) && Member(w, n, target)
       && target in w.clients && w.clients[target].online
       && (w.networks[n].topology.HubAndSpoke? ==> w.networks[n].hub == Some(target))
    then w.clients[target].endpoint
    else None
  }

  function NetworksFor(w: World, c: Id): (r: set<Id>) { if c in w.clients then w.clients[c].networks else {} }

  function FirstWith(w: World, order: seq<Id>, peer: Id): (r: Option<Id>)
    ensures r.Some? ==> r.value in order && Member(w, r.value, peer)
  {
    if order == [] then None
    else if Member(w, order[0], peer) then Some(order[0])
    else FirstWith(w, order[1..], peer)
  }

  /** The answer to a request for a peer's endpoint when the client's networks are iterated in the given order. */
  function AnswerIn(w: World, client: Id, peer: Id, order: seq<Id>): (r: PeerAnswer)
  {
    match FirstWith(w, order, peer)
    case None => NoSharedNetwork
    case Some(n) =>
      match EndpointShown(w, n, client, peer)
      case None => PeerUnavailable
      case Some(addr) => PeerEndpoint(addr)
  }

  /** A network both clients belong to, by the network records: the test of `handle_relay_request`. */
  predicate Shared(w: World, a: Id, b: Id, n: Id) { Member(w, n, a) && Member(w, n, b) }

  // ---- Exactly when one operation keeps the two copies in agreement --------------------

  lemma {:induction false} CreateAgrees(w: World, n: Id, name: string, owner: Id, topology: Topology)
    requires Agree(w)
    ensures Agree(Created(w, n, name, owner, topology).0) <==>
      || topology.Unsupported?
      || (owner in w.clients && (n in w.networks ==> w.networks[n].members <= {owner}))
  {
    var t := Created(w, n, name, owner, topology).0;
    if !topology.Unsupported? {
      assert Member(t, n, owner);
      if n in w.networks {
        forall c | c in w.networks[n].members && c != owner
          ensures !Agree(t)
        {
          assert Listed(w, c, n) && Member(w, n, c);
          assert Listed(t, c, n) && !Member(t, n, c);
        }
      }
      if owner in w.clients && (n in w.networks ==> w.networks[n].members <= {owner}) {
        forall c: Id, m: Id ensures Listed(t, c, m) <==> Member(t, m, c) {
          assert Listed(w, c, m) <==> Member(w, m, c);
        }
      }
    }
  }

  lemma {:induction false} JoinAgrees(w: World, n: Id, c: Id, passwordOk: bool)
    requires Agree(w)
    ensures Agree(Joined(w, n, c, passwordOk).0) <==> !Joined(w, n, c, passwordOk).1 || c in w.clients
  {
    var (t, ok) := Joined(w, n, c, passwordOk);
    if ok {
      assert Member(t, n, c);
      if c in w.clients {
        forall d: Id, m: Id ensures Listed(t, d, m) <==> Member(t, m, d) {
          assert Listed(w, d, m) <==> Member(w, m, d);
        }
      }
    }
  }

  lemma {:induction false} ForgetAgrees(w: World, c: Id)
    requires Agree(w)
    ensures Agree(Forgotten(w, c)) <==> c !in w.clients || w.clients[c].networks == {}
  {
    var t := Forgotten(w, c);
    if c in w.clients {
      forall n | n in w.clients[c].networks
        ensures !Agree(t)
      {
        assert Listed(w, c, n) && Member(w, n, c);
        assert Member(t, n, c) && !Listed(t, c, n);
      }
    }
    if c !in w.clients || w.clients[c].networks == {} {
      forall d: Id, m: Id ensures Listed(t, d, m) <==> Member(t, m, d) {
        assert Listed(w, d, m) <==> Member(w, m, d);
      }
    }
  }

  lemma {:induction false} LeaveAgrees(w: World, n: Id, c: Id)
    requires Agree(w)
    ensures Agree(Departed(w, n, c).0)
  {
    var t := Departed(w, n, c).0;
    forall d: Id, m: Id ensures Listed(t, d, m) <==> Member(t, m, d) {
      assert Listed(w, d, m) <==> Member(w, m, d);
    }
  }

  lemma {:induction false} DeleteAgrees(w: World, n: Id, c: Id)
    requires Agree(w)
    ensures Agree(Deleted(w, n, c).0)
  {
    var t := Deleted(w, n, c).0;
    forall d: Id, m: Id ensures Listed(t, d, m) <==> Member(t, m, d) {
      assert Listed(w, d, m) <==> Member(w, m, d);
    }
  }

  lemma {:induction false} PurgeAgrees(w: World, c: Id)
    requires Agree(w)
    ensures Agree(Purged(w, c).0)
    ensures forall n :: !Listed(Purged(w, c).0, c, n)
  {
    var t := Purged(w, c).0;
    forall d: Id, m: Id ensures Listed(t, d, m) <==> Member(t, m, d) {
      assert Listed(w, d, m) <==> Member(w, m, d);
    }
    forall m ensures !Listed(t, c, m) {
      assert Listed(w, c, m) <==> Member(w, m, c);
    }
  }

  // ---- Runs ---------------------------------------------------------------------------

  datatype Event =
    | ERegister(client: Id, pem: string, now: real)
    | EOnline(client: Id, now: real)
    | EEndpoint(client: Id, addr: Endpoint)
    | EHeartbeat(client: Id, now: real)
    | EPrune(cutoff: real)
    | EUnregister(client: Id)
    | EForget(client: Id)
    | ECreate(network: Id, name: string, client: Id, topology: Topology)
    | EJoin(network: Id, client: Id, passwordOk: bool)
    | EJoinByCode(code: string, client: Id, passwordOk: bool)
    | ELeave(network: Id, client: Id)
    | EDelete(network: Id, client: Id)
    | EPurge(client: Id)
    | EAssignCode(network: Id, code: string)
    | EExpose(network: Id, client: Id, service: Id)
    | EUnexpose(network: Id, service: Id)

  function Step(w: World, e: Event): (t: World)
  {
    match e
    case ERegister(c, pem, now) => w.(clients := Registered(w.clients, c, pem, now))
    case EOnline(c, now) => w.(clients := MarkedOnline(w.clients, c, now).0)
    case EEndpoint(c, addr) => w.(clients := EndpointUpdated(w.clients, c, addr))
    case EHeartbeat(c, now) => w.(clients := Beaten(w.clients, c, now).0)
    case EPrune(cutoff) => w.(clients := MarkedOffline(w.clients, StaleIn(w.clients, cutoff)))
    case EUnregister(c) => w.(clients := Unregistered(w.clients, c))
    case EForget(c) => Forgotten(w, c)
    case ECreate(n, name, c, topology) => Created(w, n, name, c, topology).0
    case EJoin(n, c, ok) => Joined(w, n, c, ok).0
    case EJoinByCode(code, c, ok) => JoinedByCode(w, code, c, ok).0
    case ELeave(n, c) => Departed(w, n, c).0
    case EDelete(n, c) => Deleted(w, n, c).0
    case EPurge(c) => Purged(w, c).0
    case EAssignCode(n, code) => CodeAssigned(w, n, code)
    case EExpose(n, c, service) => Exposed(w, n, c, service).0
    case EUnexpose(n, service) => Unexposed(w, n, service).0
  }

  function Exec(events: seq<Event>): (w: World)
  {
    if events == [] then EMPTY else Step(Exec(events[..|events| - 1]), events[|events| - 1])
  }

  /** The caller-side condition under which an operation keeps agreement. */
  predicate Careful(w: World, e: Event) {
    match e
    case ECreate(n, _, c, topology) =>
      topology.Unsupported? || (c in w.clients && (n in w.networks ==> w.networks[n].members <= {c}))
    case EJoin(n, c, ok) => Joined(w, n, c, ok).1 ==> c in w.clients
    case EJoinByCode(code, c, ok) => JoinedByCode(w, code, c, ok).1.Some? ==> c in w.clients
    case EForget(c) => c in w.clients ==> w.clients[c].networks == {}
    case _ => true
  }

  /** One operation keeps the two copies in agreement exactly when it is careful. */
  lemma {:induction false} StepAgrees(w: World, e: Event)
    requires Agree(w)
    ensures Agree(Step(w, e)) <==> Careful(w, e)
  {
    hide Created, Joined, Forgotten, Departed, Deleted, Purged;
    match e {
      case ECreate(n, name, c, topology) => CreateAgrees(w, n, name, c, topology);
      case EJoin(n, c, ok) => JoinAgrees(w, n, c, ok);
      case EJoinByCode(code, c, ok) => if code in w.codes { JoinAgrees(w, w.codes[code], c, ok); }
      case EForget(c) => ForgetAgrees(w, c);
      case ELeave(n, c) => LeaveAgrees(w, n, c);
      case EDelete(n, c) => DeleteAgrees(w, n, c);
      case EPurge(c) => PurgeAgrees(w, c);
      case _ => QuietAgrees(w, e);
    }
  }

  predicate OfRegistry(e: Event) {
    e.ERegister? || e.EOnline? || e.EEndpoint? || e.EHeartbeat? || e.EPrune? || e.EUnregister?
  }

  predicate OfBooks(e: Event) { e.EAssignCode? || e.EExpose? || e.EUnexpose? }

  lemma {:induction false} QuietAgrees(w: World, e: Event)
    requires Agree(w)
    requires OfRegistry(e) || OfBooks(e)
    ensures Agree(Step(w, e))
  {
    var t := Step(w, e);
    forall d: Id, m: Id ensures Listed(t, d, m) <==> Member(t, m, d) {
      assert Listed(w, d, m) <==> Member(w, m, d);
    }
  }

  ghost predicate CarefulRun(events: seq<Event>) {
    forall i :: 0 <= i < |events| ==> Careful(Exec(events[..i]), events[i])
  }

  lemma {:induction false} RunAgrees(events: seq<Event>)
    requires CarefulRun(events)
    ensures Agree(Exec(events))
  {
    if events == [] {
      assert forall c: Id, n: Id :: !Listed(EMPTY, c, n) && !Member(EMPTY, n, c);
    } else {
      var prior := events[..|events| - 1];
      assert forall i :: 0 <= i < |prior| ==> prior[..i] == events[..i];
      RunAgrees(prior);
      StepAgrees(Exec(prior), events[|events| - 1]);
    }
  }

  /** Extending a careful run by one more operation. */
  lemma {:induction false} OneMore(events: seq<Event>, e: Event)
    ensures Exec(events + [e]) == Step(Exec(events), e)
    ensures CarefulRun(events) && Careful(Exec(events), e) ==> CarefulRun(events + [e])
  {
    hide Step, Careful;
    var longer := events + [e];
    assert longer[..|events|] == events;
    assert forall i :: 0 <= i < |events| ==> longer[i] == events[i] && longer[..i] == events[..i];
  }

  lemma {:induction false} NoRun()
    ensures Exec([]) == EMPTY && CarefulRun([])
  {
  }

  /** After any careful run, the endpoint handler's search over the registry finds a shared network exactly
      when the relay handler's search over the records does. */
  lemma {:induction false} SearchesCoincide(events: seq<Event>, client: Id, peer: Id)
    requires CarefulRun(events)
    ensures var w := Exec(events);
      (exists n :: Listed(w, client, n) && Member(w, n, peer)) <==> (exists n :: Shared(w, client, peer, n))
  {
    hide Exec;
    RunAgrees(events);
    var w := Exec(events);
    if n :| Listed(w, client, n) && Member(w, n, peer) {
      assert Shared(w, client, peer, n);
    }
    if n :| Shared(w, client, peer, n) {
      assert Listed(w, client, n);
    }
  }

  /** Forgetting a member and registering it anew is not careful: from every agreeing state in which two clients
      share a network, the relay then still grants what the endpoint search denies. */
  lemma {:induction false} ForgottenMemberSplits(w: World, a: Id, b: Id, n: Id, pem: string, now: real)
    requires Agree(w) && a != b && Shared(w, a, b, n)
    ensures var t := Step(Step(w, EForget(a)), ERegister(a, pem, now));
      Shared(t, a, b, n) && forall m :: !(Listed(t, a, m) && Member(t, m, b))
  {
    assert Listed(w, a, n);
  }

  // ---- Building blocks for runs ---------------------------------------------------------------

  function Registrations(a: Id, b: Id, pem: string, now: real): seq<Event> {
    [ERegister(a, pem, now)] + [ERegister(b, pem, now)]
  }

  lemma {:induction false} RegisteredPair(a: Id, b: Id, pem: string, now: real)
    ensures var run := Registrations(a, b, pem, now);
      && CarefulRun(run) && {a, b} <= Exec(run).clients.Keys
      && Exec(run).networks == map[] && Exec(run).bannedNetworks == {} && Exec(run).providers == map[]
      && !Exec(run).clients[b].banned
  {
    hide Exec, CarefulRun;
    NoRun();
    OneMore([], ERegister(a, pem, now));
    assert [] + [ERegister(a, pem, now)] == [ERegister(a, pem, now)];
    OneMore([ERegister(a, pem, now)], ERegister(b, pem, now));
  }

  lemma {:induction false} BecomesReachable(w: World, c: Id, addr: Endpoint, now: real)
    requires c in w.clients && !w.clients[c].banned
    ensures Careful(w, EOnline(c, now)) && Careful(Step(w, EOnline(c, now)), EEndpoint(c, addr))
    ensures var t := Step(Step(w, EOnline(c, now)), EEndpoint(c, addr));
      && Reachable(t, c) && t.clients.Keys == w.clients.Keys
      && t.networks == w.networks && t.bannedNetworks == w.bannedNetworks
  {
  }

  /** A registered client creates a network under a new id. */
  lemma {:induction false} CreatesFresh(w: World, n: Id, owner: Id, topology: Topology)
    requires owner in w.clients && n !in w.networks && !topology.Unsupported?
    ensures var e := ECreate(n, "", owner, topology);
      var t := Step(w, e);
      && Careful(w, e) && t.clients.Keys == w.clients.Keys && (forall c :: Reachable(w, c) ==> Reachable(t, c))
      && t.networks.Keys == w.networks.Keys + {n} && t.bannedNetworks == w.bannedNetworks
      && (forall m :: m in w.networks ==> t.networks[m] == w.networks[m])
      && t.networks[n].topology == topology && t.networks[n].members == {owner}
      && (topology.HubAndSpoke? ==> t.networks[n].hub == Some(owner))
  {
  }

  /** A registered client joins a network that is not banned. */
  lemma {:induction false} JoinsOpen(w: World, n: Id, c: Id)
    requires c in w.clients && n in w.networks && n !in w.bannedNetworks
    ensures var e := EJoin(n, c, true);
      var t := Step(w, e);
      && Careful(w, e) && t.clients.Keys == w.clients.Keys && (forall d :: Reachable(w, d) ==> Reachable(t, d))
      && t.networks.Keys == w.networks.Keys && t.bannedNetworks == w.bannedNetworks
      && (forall m :: m in w.networks && m != n ==> t.networks[m] == w.networks[m])
      && t.networks[n] == w.networks[n].(members := w.networks[n].members + {c})
  {
  }

  /** Two registered clients in one network, after a careful run. */
  lemma {:induction false} SharedNetwork(owner: Id, c: Id, n: Id, pem: string, now: real)
    ensures var run := Registrations(owner, c, pem, now) + [ECreate(n, "", owner, Mesh)] + [EJoin(n, c, true)];
      CarefulRun(run) && Shared(Exec(run), owner, c, n)
  {
    hide Exec, CarefulRun, Step, Careful, Registrations;
    var r0 := Registrations(owner, c, pem, now);
    RegisteredPair(owner, c, pem, now);
    var r1 := r0 + [ECreate(n, "", owner, Mesh)];
    OneMore(r0, ECreate(n, "", owner, Mesh));
    CreatesFresh(Exec(r0), n, owner, Mesh);
    OneMore(r1, EJoin(n, c, true));
    JoinsOpen(Exec(r1), n, c);
  }

  /** So there is a run after which the two searches disagree. */
  lemma {:induction false} ForgettingSplitsSearches(a: Id, b: Id, n: Id, pem: string, now: real)
    requires a != b
    ensures var run := Registrations(a, b, pem, now) + [ECreate(n, "", a, Mesh)] + [EJoin(n, b, true)]
                     + [EForget(a)] + [ERegister(a, pem, now)];
      var w := Exec(run);
      && (exists m :: Shared(w, a, b, m))
      && !(exists m :: Listed(w, a, m) && Member(w, m, b))
  {
    hide Exec, CarefulRun, Step, Registrations;
    var run := Registrations(a, b, pem, now) + [ECreate(n, "", a, Mesh)] + [EJoin(n, b, true)];
    SharedNetwork(a, b, n, pem, now);
    RunAgrees(run);
    OneMore(run, EForget(a));
    OneMore(run + [EForget(a)], ERegister(a, pem, now));
    ForgottenMemberSplits(Exec(run), a, b, n, pem, now);
  }

  predicate Reachable(w: World, c: Id) { c in w.clients && w.clients[c].online && w.clients[c].endpoint.Some? }

  // ---- Who is in a network, from the calls alone -----------------------------------------------

  /** A join admits if and only if the network exists, is not banned and the password is right; it changes no other
      membership and nothing else about the network. */
  lemma {:induction false} JoinsExactly(w: World, n: Id, c: Id, passwordOk: bool)
    ensures var (t, ok) := Joined(w, n, c, passwordOk);
      && (ok <==> n in w.networks && n !in w.bannedNetworks && passwordOk)
      && (Member(t, n, c) <==> Member(w, n, c) || ok)
      && (forall m, d :: (m, d) != (n, c) ==> (Member(t, m, d) <==> Member(w, m, d)))
      && t.networks.Keys == w.networks.Keys
  {
  }

  /** A code admits if and only if it names a network that the join would admit to. */
  lemma {:induction false} CodeJoinsExactly(w: World, code: string, c: Id, passwordOk: bool)
    ensures var (t, r) := JoinedByCode(w, code, c, passwordOk);
      && (r.Some? <==>
            code in w.codes && w.codes[code] in w.networks && w.codes[code] !in w.bannedNetworks && passwordOk)
      && (r.Some? ==> r.value == w.codes[code] && Member(t, r.value, c))
      && (r.None? ==> t == w)
  {
  }

  /** Only the owner deletes a network, and then exactly that network goes. */
  lemma {:induction false} DeletesExactly(w: World, n: Id, requester: Id)
    ensures var (t, ok) := Deleted(w, n, requester);
      && (ok <==> n in w.networks && w.networks[n].owner == requester)
      && (ok ==> t.networks.Keys == w.networks.Keys - {n} && n !in t.networkCodes)
      && (!ok ==> t == w)
      && (forall m :: m in t.networks ==> m in w.networks && t.networks[m] == w.networks[m])
  {
  }

  /** A known client that is not banned goes online, and no other record changes. */
  lemma {:induction false} GoesOnlineExactly(clients: map<Id, Client>, c: Id, now: real)
    ensures var (t, ok) := MarkedOnline(clients, c, now);
      && (ok <==> c in clients && !clients[c].banned)
      && t.Keys == clients.Keys
      && (ok ==> t[c].online && t[c].lastHeartbeat == now)
      && (forall d :: d in clients && (d != c || !ok) ==> t[d] == clients[d])
  {
  }

  /** The answers of the other operations: a supported topology is created, a member leaves, a known client's heartbeat
      counts, a member exposes, a listed service is withdrawn. */
  lemma {:induction false} AnswersExactly(w: World, n: Id, name: string, c: Id, topology: Topology, s: Id, now: real)
    ensures Created(w, n, name, c, topology).1 <==> topology != Unsupported
    ensures Departed(w, n, c).1 <==> n in w.networks && c in w.networks[n].members
    ensures Beaten(w.clients, c, now).1 <==> c in w.clients
    ensures Exposed(w, n, c, s).1 <==> n in w.networks && c in w.networks[n].members
    ensures Unexposed(w, n, s).1 <==> n in w.providers && s in w.providers[n]
  {
  }

  function RecordIn(w: World, n: Id): Option<Network> { if n in w.networks then Some(w.networks[n]) else None }

  /** What an event says about one network, given the codes in force. */
  function RecordStep(r: Option<Network>, codes: map<string, Id>, e: Event, n: Id): (s: Option<Network>)
  {
    match e
    case ECreate(m, name, c, topology) =>
      if m != n || topology.Unsupported? then r
      else Some(Network(name, c, topology, {c}, if topology == HubAndSpoke then Some(c) else None,
                        if topology == Gateway then Some(c) else None))
    case EJoin(m, c, ok) => if m == n && ok then WithMember(r, c) else r
    case EJoinByCode(code, c, ok) => if code in codes && codes[code] == n && ok then WithMember(r, c) else r
    case ELeave(m, c) => if m == n then Parted(r, c) else r
    case EDelete(m, c) => if m == n && r.Some? && r.value.owner == c then None else r
    case EPurge(c) => if r.Some? && r.value.members == {c} then None else Parted(r, c)
    case _ => r
  }

  function WithMember(r: Option<Network>, c: Id): Option<Network> {
    if r.None? then None else Some(r.value.(members := r.value.members + {c}))
  }

  /** A client is no longer a member, hub or gateway. */
  function Parted(r: Option<Network>, c: Id): (s: Option<Network>)
  {
    if r.None? || c !in r.value.members then r
    else
      var k := r.value;
      Some(Network(k.name, k.owner, k.topology, k.members - {c},
                   if k.hub == Some(c) then None else k.hub, if k.gateway == Some(c) then None else k.gateway))
  }

  function RecordOf(events: seq<Event>, n: Id): (r: Option<Network>)
  {
    if events == [] then None
    else
      var prior, e := events[..|events| - 1], events[|events| - 1];
      RecordStep(RecordOf(prior, n), Exec(prior).codes, e, n)
  }

  lemma {:induction false} RecordFollows(w: World, e: Event, n: Id)
    requires w.bannedNetworks == {}
    ensures Step(w, e).bannedNetworks == {}
    ensures RecordIn(Step(w, e), n) == RecordStep(RecordIn(w, n), w.codes, e, n)
  {
    hide Registered, MarkedOnline, EndpointUpdated, Beaten, MarkedOffline, Unregistered;
    hide Enlisted, Unlisted, Delisted, PurgedClients, ProvidersWithout;
  }

  /** In every run each network's record is what the events about that network say, whatever happens to others: who
      created it, who joined with the right password, directly or by a code that named it then, and has not left. */
  lemma {:induction false} NetworkExactly(events: seq<Event>, n: Id)
    ensures Exec(events).bannedNetworks == {}
    ensures RecordIn(Exec(events), n) == RecordOf(events, n)
  {
    if events != [] {
      hide Step, RecordStep;
      NetworkExactly(events[..|events| - 1], n);
      RecordFollows(Exec(events[..|events| - 1]), events[|events| - 1], n);
    }
  }

  /** The event that lets `c` into `n`. */
  predicate Admits(codes: map<string, Id>, e: Event, n: Id, c: Id) {
    || (e.ECreate? && e.network == n && e.client == c && !e.topology.Unsupported?)
    || (e.EJoin? && e.network == n && e.client == c && e.passwordOk)
    || (e.EJoinByCode? && e.code in codes && codes[e.code] == n && e.client == c && e.passwordOk)
  }

  /** So every member created the network or joined it with the right password. */
  lemma {:induction false} MembersWereAdmitted(events: seq<Event>, n: Id, c: Id) returns (i: nat)
    requires Member(Exec(events), n, c)
    ensures i < |events| && Admits(Exec(events[..i]).codes, events[i], n, c)
  {
    NetworkExactly(events, n);
    i := AdmittedIn(events, n, c);
  }

  lemma {:induction false} AdmittedIn(events: seq<Event>, n: Id, c: Id) returns (i: nat)
    requires RecordOf(events, n).Some? && c in RecordOf(events, n).value.members
    ensures i < |events| && Admits(Exec(events[..i]).codes, events[i], n, c)
  {
    hide Exec;
    i := |events| - 1;
    var prior, e := events[..i], events[i];
    if !Admits(Exec(prior).codes, e, n, c) {
      i := AdmittedIn(prior, n, c);
      assert prior[..i] == events[..i];
    }
  }

  // ---- What the registry knows of a client, and the services, likewise --------------------------

  function ClientIn(w: World, c: Id): Option<Client> {
    if c in w.clients then Some(w.clients[c].(networks := {})) else None
  }

  function ClientStep(r: Option<Client>, e: Event, c: Id): (s: Option<Client>)
  {
    match e
    case ERegister(d, pem, now) =>
      if d != c then r
      else if r.None? then Some(Client(pem, None, now, false, {}, false, None))
      else Some(r.value.(publicKeyPem := pem))
    case EOnline(d, now) =>
      if d == c && r.Some? && !r.value.banned then Some(r.value.(online := true, lastHeartbeat := now)) else r
    case EEndpoint(d, addr) =>
      if d == c && r.Some? then Some(r.value.(endpoint := Some(addr), clientIp := Some(addr.host))) else r
    case EHeartbeat(d, now) =>
      if d == c && r.Some? then Some(r.value.(online := true, lastHeartbeat := now)) else r
    case EPrune(cutoff) =>
      if r.Some? && r.value.lastHeartbeat < cutoff then Some(r.value.(online := false)) else r
    case EUnregister(d) => if d == c && r.Some? then Some(r.value.(online := false, endpoint := None)) else r
    case EForget(d) => if d == c then None else r
    case _ => r
  }

  function ClientOf(events: seq<Event>, c: Id): (r: Option<Client>)
  {
    if events == [] then None else ClientStep(ClientOf(events[..|events| - 1], c), events[|events| - 1], c)
  }

  lemma {:induction false} ClientFollows(w: World, e: Event, c: Id)
    ensures ClientIn(Step(w, e), c) == ClientStep(ClientIn(w, c), e, c)
  {
    hide PurgedNetworks, ProvidersWithout, WithoutMember;
  }

  /** In every run the registry's record of a client, memberships aside, is what the events about that client say. */
  lemma {:induction false} ClientExactly(events: seq<Event>, c: Id)
    ensures ClientIn(Exec(events), c) == ClientOf(events, c)
  {
    if events != [] {
      hide Step, ClientStep;
      ClientExactly(events[..|events| - 1], c);
      ClientFollows(Exec(events[..|events| - 1]), events[|events| - 1], c);
    }
  }

  function ProviderIn(w: World, n: Id, service: Id): Option<Id> {
    if n in w.providers && service in w.providers[n] then Some(w.providers[n][service]) else None
  }

  function ProviderStep(r: Option<Id>, w: World, e: Event, n: Id, service: Id): (s: Option<Id>)
  {
    match e
    case EExpose(m, c, s) => if (m, s) == (n, service) && Member(w, n, c) then Some(c) else r
    case EUnexpose(m, s) => if (m, s) == (n, service) then None else r
    case EPurge(c) => if r == Some(c) then None else r
    case _ => r
  }

  function ProviderOf(events: seq<Event>, n: Id, service: Id): (r: Option<Id>)
  {
    if events == [] then None
    else
      var prior, e := events[..|events| - 1], events[|events| - 1];
      ProviderStep(ProviderOf(prior, n, service), Exec(prior), e, n, service)
  }

  /** In every run a service is listed for the member that exposed it last, until it is withdrawn or its provider
      purged. */
  lemma {:induction false} ProviderExactly(events: seq<Event>, n: Id, service: Id)
    ensures ProviderIn(Exec(events), n, service) == ProviderOf(events, n, service)
  {
    if events != [] {
      hide Step, ProviderIn, ProviderStep;
      ProviderExactly(events[..|events| - 1], n, service);
      ProviderFollows(Exec(events[..|events| - 1]), events[|events| - 1], n, service);
    }
  }

  lemma {:induction false} ProviderFollows(w: World, e: Event, n: Id, service: Id)
    ensures ProviderIn(Step(w, e), n, service) == ProviderStep(ProviderIn(w, n, service), w, e, n, service)
  {
    match e {
      case EPurge(c) => PurgeProvidersOf(w, c, n, service);
      case EExpose(m, c, s) =>
      case EUnexpose(m, s) =>
      case _ => ProvidersUntouched(w, e);
    }
  }

  lemma {:induction false} PurgeProvidersOf(w: World, c: Id, n: Id, service: Id)
    ensures ProviderIn(Purged(w, c).0, n, service)
         == if ProviderIn(w, n, service) == Some(c) then None else ProviderIn(w, n, service)
  {
    hide PurgedClients, PurgedNetworks, MemberOf;
  }

  lemma {:induction false} ProvidersUntouched(w: World, e: Event)
    requires !e.EPurge? && !e.EExpose? && !e.EUnexpose?
    ensures Step(w, e).providers == w.providers
  {
    hide Registered, MarkedOnline, EndpointUpdated, Beaten, MarkedOffline, Unregistered;
    hide Enlisted, Unlisted, Delisted, WithoutMember, Member;
  }

  // ---- Hub and gateway ----------------------------------------------------------------------

  predicate OfficersIn(r: Network) {
    (r.hub.Some? ==> r.hub.value in r.members) && (r.gateway.Some? ==> r.gateway.value in r.members)
  }

  /** The hub and the gateway of a network, where set, are members of it. */
  ghost predicate OfficersBelong(w: World) { forall n :: n in w.networks ==> OfficersIn(w.networks[n]) }

  lemma {:induction false} OfficersStepBelong(w: World, e: Event)
    requires OfficersBelong(w)
    ensures OfficersBelong(Step(w, e))
  {
    hide Registered, MarkedOnline, EndpointUpdated, Beaten, MarkedOffline, Unregistered;
    hide Enlisted, Unlisted, Delisted, PurgedClients;
    hide Created, Joined, Departed, Purged;
    match e {
      case ECreate(n, name, c, topology) => OfficersCreated(w, n, name, c, topology);
      case EJoin(n, c, ok) => OfficersJoined(w, n, c, ok);
      case EJoinByCode(code, c, ok) => if code in w.codes { OfficersJoined(w, w.codes[code], c, ok); }
      case ELeave(n, c) => OfficersDeparted(w, n, c);
      case EPurge(c) => OfficersPurged(w, c);
      case _ =>
    }
  }

  lemma {:induction false} OfficersCreated(w: World, n: Id, name: string, c: Id, topology: Topology)
    requires OfficersBelong(w)
    ensures OfficersBelong(Created(w, n, name, c, topology).0)
  {
  }

  lemma {:induction false} OfficersJoined(w: World, n: Id, c: Id, ok: bool)
    requires OfficersBelong(w)
    ensures OfficersBelong(Joined(w, n, c, ok).0)
  {
  }

  lemma {:induction false} OfficersDeparted(w: World, n: Id, c: Id)
    requires OfficersBelong(w)
    ensures OfficersBelong(Departed(w, n, c).0)
  {
  }

  lemma {:induction false} OfficersPurged(w: World, c: Id)
    requires OfficersBelong(w)
    ensures OfficersBelong(Purged(w, c).0)
  {
  }

  /** In every run, careful or not, no network keeps a hub or gateway that has left it. */
  lemma {:induction false} OfficersAlwaysBelong(events: seq<Event>)
    ensures OfficersBelong(Exec(events))
  {
    if events != [] {
      hide OfficersBelong, Step;
      OfficersAlwaysBelong(events[..|events| - 1]);
      OfficersStepBelong(Exec(events[..|events| - 1]), events[|events| - 1]);
    }
  }

  // ---- Invite codes -----------------------------------------------------------------------

  /** Codes and networks name each other one to one. */
  ghost predicate CodesInverse(w: World) {
    && (forall n :: n in w.networkCodes ==> w.networkCodes[n] in w.codes && w.codes[w.networkCodes[n]] == n)
    && (forall k :: k in w.codes ==> w.codes[k] in w.networkCodes && w.networkCodes[w.codes[k]] == k)
  }

  /** Every operation keeps codes and networks one to one, except that a new code does so exactly when it is unused. */
  lemma {:induction false} CodesStayInverse(w: World, e: Event)
    requires CodesInverse(w)
    requires e.EAssignCode? ==> e.network !in w.networkCodes
    ensures CodesInverse(Step(w, e)) <==> (e.EAssignCode? ==> e.code !in w.codes)
  {
    hide CodesInverse;
    match e {
      case EDelete(n, c) => DeleteKeepsCodes(w, n, c);
      case EAssignCode(n, code) => AssignKeepsCodes(w, n, code);
      case _ =>
        CodesUntouched(w, e);
        hide Step;
        CodesDependOnly(w, Step(w, e));
    }
  }

  lemma {:induction false} CodesUntouched(w: World, e: Event)
    requires !e.EDelete? && !e.EAssignCode?
    ensures Step(w, e).codes == w.codes && Step(w, e).networkCodes == w.networkCodes
  {
    hide Enlisted, Unlisted, PurgedNetworks, PurgedClients, WithoutMember, ProvidersWithout, MemberOf, Member;
    hide Registered, MarkedOnline, EndpointUpdated, Beaten, MarkedOffline, Unregistered;
  }

  /** Every code of the run goes to a network without one, as `generate_invite_code` sees to. */
  ghost predicate CodesWhereMissing(events: seq<Event>) {
    forall i :: 0 <= i < |events| && events[i].EAssignCode? ==> events[i].network !in Exec(events[..i]).networkCodes
  }

  /** Every code of the run was unused. */
  ghost predicate CodesUnused(events: seq<Event>) {
    forall i :: 0 <= i < |events| && events[i].EAssignCode? ==> events[i].code !in Exec(events[..i]).codes
  }

  ghost predicate AlwaysInverse(events: seq<Event>) {
    forall i :: 0 <= i <= |events| ==> CodesInverse(Exec(events[..i]))
  }

  /** Codes and networks are one to one throughout a run if and only if every code it assigns is unused. */
  lemma {:induction false} RunKeepsCodesExactly(events: seq<Event>)
    requires CodesWhereMissing(events)
    ensures AlwaysInverse(events) <==> CodesUnused(events)
  {
    hide CodesInverse, Exec;
    assert CodesInverse(Exec([])) by { NoRun(); NoCodes(); }
    if events == [] {
      assert events[..0] == [];
    } else {
      var n := |events| - 1;
      var prior, e := events[..n], events[n];
      assert events[..n + 1] == events == prior + [e];
      assert forall i :: 0 <= i <= n ==> prior[..i] == events[..i];
      assert forall i :: 0 <= i < n ==> prior[i] == events[i];
      RunKeepsCodesExactly(prior);
      assert AlwaysInverse(events) <==> AlwaysInverse(prior) && CodesInverse(Exec(events)) by {
        assert prior[..n] == prior;
      }
      OneMore(prior, e);
      if AlwaysInverse(prior) {
        assert CodesInverse(Exec(prior[..n])) && prior[..n] == prior;
        CodesStayInverse(Exec(prior), e);
      }
    }
  }

  lemma {:induction false} NoCodes()
    ensures CodesInverse(EMPTY)
  {
  }

  lemma {:induction false} CodesDependOnly(w: World, t: World)
    requires w.codes == t.codes && w.networkCodes == t.networkCodes && CodesInverse(w)
    ensures CodesInverse(t)
  {
  }

  lemma {:induction false} DeleteKeepsCodes(w: World, n: Id, c: Id)
    requires CodesInverse(w)
    ensures CodesInverse(Deleted(w, n, c).0)
  {
  }

  lemma {:induction false} AssignKeepsCodes(w: World, n: Id, code: string)
    requires CodesInverse(w) && n !in w.networkCodes
    ensures CodesInverse(CodeAssigned(w, n, code)) <==> code !in w.codes
  {
    var t := CodeAssigned(w, n, code);
    if code in w.codes {
      var m := w.codes[code];
      assert m in w.networkCodes && m != n;
      assert t.networkCodes[m] == code && t.codes[code] == n;
    }
  }

  /** Every code names a live network. */
  ghost predicate CodesLive(w: World) { forall k :: k in w.codes ==> w.codes[k] in w.networks }

  /** An operation keeps the codes live if and only if it is no purge of the last member of a network with a code, and
      no code for a missing network: unlike a deletion, a purge leaves the code behind. */
  lemma {:induction false} CodesLiveExactly(w: World, e: Event)
    requires CodesInverse(w) && CodesLive(w)
    ensures CodesLive(Step(w, e)) <==>
      match e
      case EPurge(c) => forall n :: n in w.networkCodes ==> w.networks[n].members != {c}
      case EAssignCode(n, _) => n in w.networks
      case _ => true
  {
    match e {
      case EPurge(c) => PurgeAndCodes(w, c);
      case EAssignCode(n, code) => assert Step(w, e).codes[code] == n;
      case EDelete(n, c) => DeleteAndCodes(w, n, c);
      case _ =>
        CodesUntouched(w, e);
        NetworksStay(w, e);
        hide Step, CodesInverse;
    }
  }

  lemma {:induction false} DeleteAndCodes(w: World, n: Id, c: Id)
    requires CodesInverse(w) && CodesLive(w)
    ensures CodesLive(Deleted(w, n, c).0)
  {
    hide Delisted;
  }

  lemma {:induction false} NetworksStay(w: World, e: Event)
    requires !e.EDelete? && !e.EPurge?
    ensures w.networks.Keys <= Step(w, e).networks.Keys
  {
    hide Registered, MarkedOnline, EndpointUpdated, Beaten, MarkedOffline, Unregistered, Enlisted, Unlisted;
    hide WithoutMember, Exposed, Unexposed;
    hide Member;
    match e {
      case EExpose(n, c, s) => ServicesLeaveNetworks(w, n, c, s);
      case EUnexpose(n, s) => ServicesLeaveNetworks(w, n, "", s);
      case _ =>
    }
  }

  lemma {:induction false} ServicesLeaveNetworks(w: World, n: Id, c: Id, s: Id)
    ensures Exposed(w, n, c, s).0.networks == w.networks && Unexposed(w, n, s).0.networks == w.networks
  {
    hide Member;
  }

  lemma {:induction false} PurgeAndCodes(w: World, c: Id)
    requires CodesInverse(w) && CodesLive(w)
    ensures CodesLive(Purged(w, c).0) <==> forall n :: n in w.networkCodes ==> w.networks[n].members != {c}
  {
    var t := Purged(w, c).0;
    assert forall n :: n in w.networks ==> (n in t.networks <==> w.networks[n].members != {c});
    if n :| n in w.networkCodes && w.networks[n].members == {c} {
      assert t.codes[w.networkCodes[n]] == n && n !in t.networks;
    }
  }

  /** Such a purge happens: a client alone in a network with a code is purged. */
  lemma {:induction false} PurgeLeavesCode(c: Id, n: Id, code: string, pem: string, now: real)
    ensures var run := Registrations(c, c, pem, now) + [ECreate(n, "", c, Mesh)] + [EAssignCode(n, code)] + [EPurge(c)];
      CarefulRun(run) && code in Exec(run).codes && Exec(run).codes[code] !in Exec(run).networks
  {
    hide Exec, CarefulRun, Registrations;
    var r0 := Registrations(c, c, pem, now);
    RegisteredPair(c, c, pem, now);
    var r1 := r0 + [ECreate(n, "", c, Mesh)];
    OneMore(r0, ECreate(n, "", c, Mesh));
    CreatesFresh(Exec(r0), n, c, Mesh);
    var r2 := r1 + [EAssignCode(n, code)];
    OneMore(r1, EAssignCode(n, code));
    OneMore(r2, EPurge(c));
    hide Created;
    assert Exec(r2).networks[n].members == {c};
  }

  // ---- Exposed services ------------------------------------------------------------------------

  /** Every service is provided by a member of a live network. */
  ghost predicate ProvidersBelong(w: World) {
    forall n, s :: n in w.providers && s in w.providers[n] ==> Member(w, n, w.providers[n][s])
  }

  predicate Provides(w: World, n: Id, c: Id) { n in w.providers && c in w.providers[n].Values }

  /** An operation keeps every provider a member if and only if it takes no provider's membership away: leaving a
      network one provides in, deleting a network with services and creating one over it are what does. */
  lemma {:induction false} ProvidersBelongExactly(w: World, e: Event)
    requires ProvidersBelong(w)
    ensures ProvidersBelong(Step(w, e)) <==>
      match e
      case ELeave(n, c) => !Provides(w, n, c)
      case EDelete(n, c) => Deleted(w, n, c).1 ==> n !in w.providers || w.providers[n] == map[]
      case ECreate(n, _, c, topology) => topology.Unsupported? || (n in w.providers ==> w.providers[n].Values <= {c})
      case _ => true
  {
    hide Registered, MarkedOnline, EndpointUpdated, Beaten, MarkedOffline, Unregistered;
    hide Enlisted, Unlisted, Delisted, PurgedClients;
    hide ProvidersBelong, Created, Joined, Departed, Deleted, Purged, Exposed;
    match e {
      case ECreate(n, name, c, topology) => CreateProviders(w, n, name, c, topology);
      case EJoin(n, c, ok) => JoinProviders(w, n, c, ok);
      case EJoinByCode(code, c, ok) => if code in w.codes { JoinProviders(w, w.codes[code], c, ok); }
      case ELeave(n, c) => LeaveProviders(w, n, c);
      case EDelete(n, c) => DeleteProviders(w, n, c);
      case EPurge(c) => PurgeProviders(w, c);
      case EExpose(n, c, service) => ExposeProviders(w, n, c, service);
      case _ => FewerProviders(w, Step(w, e));
    }
  }

  /** So leaving a network strands the services one exposes in it. */
  lemma {:induction false} LeavingStrandsService(owner: Id, c: Id, n: Id, service: Id, pem: string, now: real)
    requires owner != c
    ensures var run := Registrations(owner, c, pem, now) + [ECreate(n, "", owner, Mesh)] + [EJoin(n, c, true)]
                     + [EExpose(n, c, service)] + [ELeave(n, c)];
      CarefulRun(run) && !ProvidersBelong(Exec(run))
  {
    hide Exec, CarefulRun, Step, Careful, Registrations;
    var r2 := Registrations(owner, c, pem, now) + [ECreate(n, "", owner, Mesh)] + [EJoin(n, c, true)];
    SharedNetwork(owner, c, n, pem, now);
    var r3 := r2 + [EExpose(n, c, service)];
    OneMore(r2, EExpose(n, c, service));
    OneMore(r3, ELeave(n, c));
    ExposesThenLeaves(Exec(r2), n, c, service);
  }

  lemma {:induction false} ExposesThenLeaves(w: World, n: Id, c: Id, service: Id)
    requires Member(w, n, c)
    ensures Careful(w, EExpose(n, c, service)) && Careful(Step(w, EExpose(n, c, service)), ELeave(n, c))
    ensures !ProvidersBelong(Step(Step(w, EExpose(n, c, service)), ELeave(n, c)))
  {
    var t := Step(w, EExpose(n, c, service));
    assert n in t.providers && service in t.providers[n] && t.providers[n][service] == c;
    var u := Step(t, ELeave(n, c));
    assert u.providers == t.providers && !Member(u, n, c);
  }

  lemma {:induction false} FewerProviders(w: World, t: World)
    requires ProvidersBelong(w) && t.networks == w.networks
    requires forall n, s :: n in t.providers && s in t.providers[n] ==>
      n in w.providers && s in w.providers[n] && w.providers[n][s] == t.providers[n][s]
    ensures ProvidersBelong(t)
  {
  }

  lemma {:induction false} CreateProviders(w: World, n: Id, name: string, c: Id, topology: Topology)
    requires ProvidersBelong(w)
    ensures ProvidersBelong(Created(w, n, name, c, topology).0) <==>
      topology.Unsupported? || (n in w.providers ==> w.providers[n].Values <= {c})
  {
  }

  lemma {:induction false} JoinProviders(w: World, n: Id, c: Id, ok: bool)
    requires ProvidersBelong(w)
    ensures ProvidersBelong(Joined(w, n, c, ok).0)
  {
  }

  lemma {:induction false} LeaveProviders(w: World, n: Id, c: Id)
    requires ProvidersBelong(w)
    ensures ProvidersBelong(Departed(w, n, c).0) <==> !Provides(w, n, c)
  {
  }

  lemma {:induction false} DeleteProviders(w: World, n: Id, c: Id)
    requires ProvidersBelong(w)
    ensures ProvidersBelong(Deleted(w, n, c).0) <==>
      (Deleted(w, n, c).1 ==> n !in w.providers || w.providers[n] == map[])
  {
  }

  lemma {:induction false} PurgeProviders(w: World, c: Id)
    requires ProvidersBelong(w)
    ensures ProvidersBelong(Purged(w, c).0)
  {
  }

  lemma {:induction false} ExposeProviders(w: World, n: Id, c: Id, service: Id)
    requires ProvidersBelong(w)
    ensures ProvidersBelong(Exposed(w, n, c, service).0)
  {
  }

  // ---- Which shared network the search meets --------------------------------------------------------

  /** A hub-and-spoke network shows its hub's endpoint only. */
  predicate Hides(w: World, n: Id, peer: Id) {
    n in w.networks && w.networks[n].topology.HubAndSpoke? && w.networks[n].hub != Some(peer)
  }

  /** All networks in common hide the peer, or none does. */
  ghost predicate HideAlike(w: World, client: Id, peer: Id) {
    || (forall n :: Shared(w, client, peer, n) ==> Hides(w, n, peer))
    || (forall n :: Shared(w, client, peer, n) ==> !Hides(w, n, peer))
  }

  /** However the client's set of networks is iterated, the answer about the peer is the same. */
  ghost predicate OneAnswer(w: World, client: Id, peer: Id) {
    forall o, p ::
      Enumerates(o, NetworksFor(w, client)) && Enumerates(p, NetworksFor(w, client)) ==>
        AnswerIn(w, client, peer, o) == AnswerIn(w, client, peer, p)
  }

  lemma {:induction false} SomeOrder(d: set<Id>) returns (order: seq<Id>)
    ensures Enumerates(order, d)
  {
    order := [];
    if d != {} {
      var n :| n in d;
      order := SomeOrder(d - {n});
      EnumeratesAppend(order, d - {n}, n);
      assert d - {n} + {n} == d;
      order := order + [n];
    }
  }

  /** Any network of the client can be the one its search meets first. */
  lemma {:induction false} OrderFrom(d: set<Id>, n: Id) returns (order: seq<Id>)
    requires n in d
    ensures Enumerates(order, d) && order != [] && order[0] == n
  {
    var rest := SomeOrder(d - {n});
    order := [n] + rest;
  }

  /** In a state where the two copies agree, the answer does not depend on the order if and only if the client asks
      about itself, or the peer cannot be reached anyway, or the networks in common all hide the peer or none does. */
  lemma {:induction false} OneAnswerExactly(w: World, client: Id, peer: Id)
    requires Agree(w)
    ensures OneAnswer(w, client, peer) <==> client == peer || !Reachable(w, peer) || HideAlike(w, client, peer)
  {
    hide EndpointShown;
    if client == peer || !Reachable(w, peer) || HideAlike(w, client, peer) {
      forall o, p | Enumerates(o, NetworksFor(w, client)) && Enumerates(p, NetworksFor(w, client))
        ensures AnswerIn(w, client, peer, o) == AnswerIn(w, client, peer, p)
      {
        SameAnswer(w, client, peer, o, p);
      }
    } else {
      var shown :| Shared(w, client, peer, shown) && !Hides(w, shown, peer);
      var hidden :| Shared(w, client, peer, hidden) && Hides(w, hidden, peer);
      assert Listed(w, client, shown) && Listed(w, client, hidden);
      var o := OrderFrom(NetworksFor(w, client), shown);
      var p := OrderFrom(NetworksFor(w, client), hidden);
      ShownExactly(w, shown, client, peer);
      ShownExactly(w, hidden, client, peer);
      assert AnswerIn(w, client, peer, o) != AnswerIn(w, client, peer, p);
    }
  }

  lemma {:induction false} ShownExactly(w: World, n: Id, client: Id, peer: Id)
    requires Shared(w, client, peer, n)
    ensures EndpointShown(w, n, client, peer)
         == if client != peer && Reachable(w, peer) && !Hides(w, n, peer) then w.clients[peer].endpoint else None
  {
  }

  lemma {:induction false} SameAnswer(w: World, client: Id, peer: Id, o: seq<Id>, p: seq<Id>)
    requires Agree(w) && Enumerates(o, NetworksFor(w, client)) && Enumerates(p, NetworksFor(w, client))
    requires client == peer || !Reachable(w, peer) || HideAlike(w, client, peer)
    ensures AnswerIn(w, client, peer, o) == AnswerIn(w, client, peer, p)
  {
    hide EndpointShown;
    FindsIfAny(w, client, peer, o);
    FindsIfAny(w, client, peer, p);
    var m, n := FirstWith(w, o, peer), FirstWith(w, p, peer);
    if m.Some? && n.Some? {
      ShownExactly(w, m.value, client, peer);
      ShownExactly(w, n.value, client, peer);
    }
  }

  lemma {:induction false} FindsIfAny(w: World, client: Id, peer: Id, order: seq<Id>)
    requires Agree(w) && Enumerates(order, NetworksFor(w, client))
    ensures var r := FirstWith(w, order, peer);
      && (r.Some? ==> Shared(w, client, peer, r.value))
      && (r.None? ==> forall n :: !Shared(w, client, peer, n))
  {
    var r := FirstWith(w, order, peer);
    if r.Some? { assert Listed(w, client, r.value); }
    forall n | r.None? ensures !Shared(w, client, peer, n) {
      assert Listed(w, client, n) <==> Member(w, n, client);
      if n in order { NoneMeansNone(w, order, peer, n); }
    }
  }

  lemma {:induction false} NoneMeansNone(w: World, order: seq<Id>, peer: Id, n: Id)
    requires FirstWith(w, order, peer).None? && n in order
    ensures !Member(w, n, peer)
  {
    if n != order[0] { NoneMeansNone(w, order[1..], peer, n); }
  }

  /** So in every careful run. */
  lemma {:induction false} OneAnswerInRuns(events: seq<Event>, client: Id, peer: Id)
    requires CarefulRun(events)
    ensures var w := Exec(events);
      OneAnswer(w, client, peer) <==> client == peer || !Reachable(w, peer) || HideAlike(w, client, peer)
  {
    hide Exec, OneAnswer, HideAlike;
    RunAgrees(events);
    OneAnswerExactly(Exec(events), client, peer);
  }

  /** And there is a careful run after which the order decides: a mesh and a hub-and-spoke network of `a`, both joined
      by `b`. */
  lemma {:induction false} OrderDecides(a: Id, b: Id, mesh: Id, spoke: Id, addr: Endpoint, pem: string, now: real)
    requires a != b && mesh != spoke
    ensures var run := Registrations(a, b, pem, now) + [EOnline(b, now)] + [EEndpoint(b, addr)]
                     + [ECreate(mesh, "", a, Mesh)] + [ECreate(spoke, "", a, HubAndSpoke)]
                     + [EJoin(mesh, b, true)] + [EJoin(spoke, b, true)];
      CarefulRun(run) && !OneAnswer(Exec(run), a, b)
  {
    hide Exec, CarefulRun, OneAnswer, Step, Careful, Registrations, Reachable;
    var r0 := Registrations(a, b, pem, now);
    RegisteredPair(a, b, pem, now);
    var r1 := r0 + [EOnline(b, now)];
    OneMore(r0, EOnline(b, now));
    var r2 := r1 + [EEndpoint(b, addr)];
    OneMore(r1, EEndpoint(b, addr));
    BecomesReachable(Exec(r0), b, addr, now);
    var r3 := r2 + [ECreate(mesh, "", a, Mesh)];
    OneMore(r2, ECreate(mesh, "", a, Mesh));
    CreatesFresh(Exec(r2), mesh, a, Mesh);
    var r4 := r3 + [ECreate(spoke, "", a, HubAndSpoke)];
    OneMore(r3, ECreate(spoke, "", a, HubAndSpoke));
    CreatesFresh(Exec(r3), spoke, a, HubAndSpoke);
    var r5 := r4 + [EJoin(mesh, b, true)];
    OneMore(r4, EJoin(mesh, b, true));
    JoinsOpen(Exec(r4), mesh, b);
    var r6 := r5 + [EJoin(spoke, b, true)];
    OneMore(r5, EJoin(spoke, b, true));
    JoinsOpen(Exec(r5), spoke, b);
    var w := Exec(r6);
    assert Shared(w, a, b, mesh) && !Hides(w, mesh, b);
    assert Shared(w, a, b, spoke) && Hides(w, spoke, b);
    OneAnswerInRuns(r6, a, b);
  }
}
