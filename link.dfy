/**
 * The one use the command-line tool makes of the lookup: find the peer
 * with a given public key, or append a new one to fill in. Written against
 * `find_peer` as it stands, and against the lookup that returns its match.
 */
module Link {
  import opened Wrappers
  import opened OrderedDict
  import opened WgPeer
  import opened WgConfig

  /**
   * `peer = config.find_peer(public=key)`, then `if not peer:` append a new
   * peer and use it. Since `find_peer` never returns a peer, every call that
   * does not raise appends one, even when a peer with that key is listed.
   */
  method FindOrAppend(c: WGConfig, public: Option<string>) returns (r: Result<WGPeer, KeyError>)
    requires c.Valid()
    modifies c
    ensures c.Valid() && c.interface == old(c.interface) && c.path == old(c.path)
    ensures r.Failure? <==> old(c.FindPeer(public)).Failure?
    ensures r.Failure? ==> r.error == KeyError(PublicKey) && c.peers == old(c.peers)
    ensures r.Success? ==> fresh(r.value) && r.value.vars == [] && c.peers == old(c.peers) + [r.value]
  {
    var found := c.FindPeer(public);
    match found
    case Failure(e) =>
      r := Failure(e);
    case Success(None) =>
      var p := c.AppendPeer();
      r := Success(p);
  }

  /**
   * The same with the lookup returning its match: a listed peer with the
   * key is reused and the list stays as it was; only when no peer has the
   * key is a new one appended.
   */
  method FindOrAppendFirstMatch(c: WGConfig, public: Option<string>) returns (r: Result<WGPeer, KeyError>)
    requires c.Valid()
    modifies c
    ensures c.Valid() && c.interface == old(c.interface) && c.path == old(c.path)
    ensures r.Failure? <==> old(c.FindPeer(public)).Failure?
    ensures r.Failure? ==> c.peers == old(c.peers)
    ensures public.Some? ==> forall i :: FirstMatchAt(old(c.PeerEntries()), public.value, i) && public.value != "" ==>
              r == Success(old(c.peers)[i]) && c.peers == old(c.peers)
    ensures r.Success? && (!Truthy(public) || PassedBefore(old(c.PeerEntries()), public.value, |old(c.peers)|)) ==>
              fresh(r.value) && r.value.vars == [] && c.peers == old(c.peers) + [r.value]
    ensures r.Success? && !(r.value in old(c.peers)) ==>
              fresh(r.value) && r.value.vars == [] && c.peers == old(c.peers) + [r.value]
  {
    var found := c.FindPeerFirstMatch(public);
    match found
    case Failure(e) =>
      r := Failure(e);
    case Success(Some(p)) =>
      r := Success(p);
    case Success(None) =>
      var p := c.AppendPeer();
      r := Success(p);
  }
}
