/** Relay requests (server/relay.py `handle_relay_request`): the membership test in front of the relay. */
module Server {
  import M = Membership
  import R = Relay

  datatype RelayAnswer = UnknownPeer | PeerOffline | NoSharedNetwork | Granted

  /** A RELAY_GRANTED message: who gets it, which peer it names and for which direction. */
  datatype Grant = Grant(to: M.Id, peer: M.Id, path: string)

  predicate Known(w: M.World, src: M.Id, dst: M.Id) { src in w.clients && dst in w.clients }

  predicate Online(w: M.World, src: M.Id, dst: M.Id) {
    Known(w, src, dst) && w.clients[src].online && w.clients[dst].online
  }

  /** A path is granted exactly to two known, online clients with a network in common, each refusal names the first test
      that fails, nothing but a grant changes the relay, and the destination is told if it is connected. */
  method HandleRelayRequest(relay: R.RelayForwarder, networks: M.NetworkManager, connected: set<M.Id>,
                            src: M.Id, dst: M.Id)
    returns (answer: RelayAnswer, sent: seq<Grant>)
    modifies relay
    ensures var w := networks.View();
      && (answer.UnknownPeer? <==> !Known(w, src, dst))
      && (answer.PeerOffline? <==> Known(w, src, dst) && !Online(w, src, dst))
      && (answer.NoSharedNetwork? <==> Online(w, src, dst) && forall n :: !M.Shared(w, src, dst, n))
      && (answer.Granted? <==> Online(w, src, dst) && exists n :: M.Shared(w, src, dst, n))
    ensures relay.View() == if answer.Granted? then R.Register(old(relay.View()), src, dst).0 else old(relay.View())
    ensures networks.View() == old(networks.View())
    ensures sent ==
      if !answer.Granted? then []
      else [Grant(src, dst, src + "->" + dst)] + if dst in connected then [Grant(dst, src, dst + "->" + src)] else []
  {
    sent := [];
    var clients := networks.registry.clients;
    if src !in clients || dst !in clients { return UnknownPeer, sent; }
    if !(clients[src].online && clients[dst].online) { return PeerOffline, sent; }
    var found := ListedTogether(networks, src, dst);
    if !found { return NoSharedNetwork, sent; }
    var _ := relay.RegisterRelayPath(src, dst);
    sent := [Grant(src, dst, src + "->" + dst)];
    if dst in connected { sent := sent + [Grant(dst, src, dst + "->" + src)]; }
    return Granted, sent;
  }

  /** `any(dst in members(n) for n in list_for_client(src))` over the network records. */
  method ListedTogether(networks: M.NetworkManager, src: M.Id, dst: M.Id) returns (found: bool)
    ensures found <==> exists n :: M.Shared(networks.View(), src, dst, n)
  {
    var todo := networks.networks.Keys;
    while todo != {}
      invariant forall n :: M.Shared(networks.View(), src, dst, n) ==> n in todo
      invariant todo <= networks.networks.Keys
      decreases todo
    {
      var n :| n in todo;
      if src in networks.networks[n].members && dst in networks.networks[n].members {
        assert M.Shared(networks.View(), src, dst, n);
        return true;
      }
      todo := todo - {n};
    }
    return false;
  }
}
