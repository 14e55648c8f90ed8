/** The development stand-in for the WireGuard service (`mockService` of
    backend/internal/wireguard): a list of peers edited in place, with magic
    names and ids that force each operation to fail. */
module MockService {
  import opened Wrappers
  import opened Text
  import opened WgTypes

  /** The configuration text every mock peer gets. */
  const MockConfig := "[Interface]\nPrivateKey = MOCK_KEY\n..."
  /** The configuration text of a regenerated mock peer. */
  const RegeneratedConfig := "[Interface]\nPrivateKey = MOCK_REGENERATED_KEY\n..."

  /** The two peers a new mock service starts with. */
  const InitialPeers: seq<Peer> := [
    Peer("mock-peer-1", "ABC...", "Primary Server", "192.168.1.1:51820", ["10.0.0.2/32"],
         "2026-01-31 02:00:00", 1024, 2048, ""),
    Peer("mock-peer-2", "XYZ...", "Mobile Client", "192.168.1.2:51820", ["10.0.0.3/32"],
         "2026-01-31 02:05:00", 512, 256, "")]

  /** The statistics the mock reports for a list of `count` peers. */
  function MockStats(count: nat): Stats {
    Stats("mock-wg0", "MOCK_SERVER_PUBKEY", 51820, "10.0.0.0/24", count, 1536, 2304)
  }

  /** The position of the first peer with the given id. The mock of this
      package repeats the lookup of the legacy mock (`LegacyMock.FirstIndex`),
      each over its own package's list. */
  function FirstWithId(peers: seq<Peer>, id: string): (r: Option<nat>)
    ensures r.Some? ==> r.value < |peers| && peers[r.value].id == id
    ensures r.Some? ==> forall j :: 0 <= j < r.value ==> peers[j].id != id
    ensures r.None? ==> forall j :: 0 <= j < |peers| ==> peers[j].id != id
  {
    if peers == [] then None
    else if peers[0].id == id then Some(0)
    else
      match FirstWithId(peers[1..], id)
      case None => None
      case Some(i) => Some(i + 1)
  }

  /** Some peer carries the given name. */
  predicate HasName(peers: seq<Peer>, name: string) {
    exists i :: 0 <= i < |peers| && peers[i].name == name
  }

  /** `mock-peer-<n+1>`, the id of a peer added to a list of `n`. */
  function MockId(n: nat): string {
    "mock-peer-" + NatToString(n + 1)
  }

  /** The peer `AddPeer` appends to a list of `count` peers. */
  function NewMockPeer(count: nat, opts: AddPeerOptions): Peer {
    var id := MockId(count);
    Peer(id, if opts.publicKey == "" then "MOCK_PUBKEY_" + id else opts.publicKey,
         opts.name, "", opts.allowedIPs, "", 0, 0, "")
  }

  /** The list without the first peer carrying the id: the peers before it
      and after it keep their order. */
  function Removed(peers: seq<Peer>, id: string): (r: seq<Peer>)
    ensures FirstWithId(peers, id).None? ==> r == peers
    ensures FirstWithId(peers, id).Some? ==>
      var i := FirstWithId(peers, id).value;
      |r| == |peers| - 1 &&
      (forall j :: 0 <= j < i ==> r[j] == peers[j]) &&
      (forall j :: i < j < |peers| ==> r[j - 1] == peers[j])
  {
    match FirstWithId(peers, id)
    case None => peers
    case Some(i) => peers[..i] + peers[i + 1..]
  }

  /** A regenerated peer: `-new` appended to its public key, which becomes
      its id. */
  function Regenerated(p: Peer): (q: Peer)
    ensures q.id == q.publicKey && q.publicKey == p.publicKey + "-new"
    ensures q.name == p.name && q.allowedIPs == p.allowedIPs
  {
    p.(publicKey := p.publicKey + "-new", id := p.publicKey + "-new")
  }

  /** The name and the allowed IPs of the update, where given. */
  function MockUpdated(p: Peer, u: PeerUpdate): (q: Peer)
    ensures q.id == p.id && q.publicKey == p.publicKey
    ensures q.name == u.name.GetOr(p.name) && q.allowedIPs == u.allowedIPs.GetOr(p.allowedIPs)
  {
    p.(name := u.name.GetOr(p.name), allowedIPs := u.allowedIPs.GetOr(p.allowedIPs))
  }

  /** Ids are counted from the list length, so an id can be handed out
      twice: after `mock-peer-1` is removed from the initial list, the next
      peer added is again `mock-peer-2`. */
  lemma AddAfterRemoveReusesId()
    ensures var ps := Removed(InitialPeers, "mock-peer-1");
      |ps| == 1 && NewMockPeer(|ps|, AddPeerOptions("x", "", [], "", 0, 0, false, "")).id == ps[0].id
  {
  }

  /** Different list lengths give different ids. */
  lemma MockIdInjective(m: nat, n: nat)
    requires MockId(m) == MockId(n)
    ensures m == n
  {
    var prefix := "mock-peer-";
    assert NatToString(m + 1) == MockId(m)[|prefix|..];
    assert NatToString(n + 1) == MockId(n)[|prefix|..];
    NatToStringInjective(m + 1, n + 1);
  }

  class MockService {
    var peers: seq<Peer>

    /** `NewMockService`. */
    constructor ()
      ensures peers == InitialPeers
    {
      peers := InitialPeers;
    }

    /** Fails when some peer is named `force-list-error`. */
    method ListPeers() returns (r: Result<seq<Peer>, Error>)
      ensures r.Err? <==> HasName(peers, "force-list-error")
      ensures r.Ok? ==> r.value == peers
    {
      var i := 0;
      while i < |peers|
        invariant 0 <= i <= |peers|
        invariant forall j :: 0 <= j < i ==> peers[j].name != "force-list-error"
      {
        if peers[i].name == "force-list-error" {
          return Err(Forced);
        }
        i := i + 1;
      }
      return Ok(peers);
    }

    /** Appends a peer numbered after the list length; fails for the name
        `force-add-error`. */
    method AddPeer(opts: AddPeerOptions) returns (r: Result<PeerResponse, Error>)
      modifies this
      ensures opts.name == "force-add-error" ==> r == Err(Forced) && peers == old(peers)
      ensures opts.name != "force-add-error" ==>
        r == Ok(PeerResponse(NewMockPeer(|old(peers)|, opts), MockConfig, "", "")) &&
        peers == old(peers) + [NewMockPeer(|old(peers)|, opts)]
    {
      if opts.name == "force-add-error" {
        return Err(Forced);
      }
      var id := "mock-peer-" + NatToString(|peers| + 1);
      var peer := Peer(id, opts.publicKey, opts.name, "", opts.allowedIPs, "", 0, 0, "");
      if peer.publicKey == "" {
        peer := peer.(publicKey := "MOCK_PUBKEY_" + peer.id);
      }
      peers := peers + [peer];
      return Ok(PeerResponse(peer, MockConfig, "", ""));
    }

    /** Removes the first peer with the id; fails for the id `force-error`
        and for an unknown id. */
    method RemovePeer(id: string) returns (err: Option<Error>)
      modifies this
      ensures id == "force-error" ==> err == Some(Forced) && peers == old(peers)
      ensures id != "force-error" && FirstWithId(old(peers), id).None? ==> err == Some(PeerNotFound) && peers == old(peers)
      ensures id != "force-error" && FirstWithId(old(peers), id).Some? ==> err.None? && peers == Removed(old(peers), id)
    {
      if id == "force-error" {
        return Some(Forced);
      }
      var i := 0;
      while i < |peers|
        invariant 0 <= i <= |peers|
        invariant forall j :: 0 <= j < i ==> peers[j].id != id
      {
        if peers[i].id == id {
          assert FirstWithId(peers, id) == Some(i);
          peers := peers[..i] + peers[i + 1..];
          return None;
        }
        i := i + 1;
      }
      return Some(PeerNotFound);
    }

    /** Regenerates the first peer with the id in place; fails for the id
        `force-error` and for an unknown id. */
    method RegeneratePeer(id: string) returns (r: Result<PeerResponse, Error>)
      modifies this
      ensures id == "force-error" ==> r == Err(Forced) && peers == old(peers)
      ensures id != "force-error" && FirstWithId(old(peers), id).None? ==> r == Err(PeerNotFound) && peers == old(peers)
      ensures id != "force-error" && FirstWithId(old(peers), id).Some? ==>
        var i := FirstWithId(old(peers), id).value;
        r == Ok(PeerResponse(Regenerated(old(peers)[i]), RegeneratedConfig, "", "")) &&
        peers == old(peers)[i := Regenerated(old(peers)[i])]
    {
      if id == "force-error" {
        return Err(Forced);
      }
      var i := 0;
      while i < |peers|
        invariant 0 <= i <= |peers|
        invariant forall j :: 0 <= j < i ==> peers[j].id != id
      {
        if peers[i].id == id {
          assert FirstWithId(peers, id) == Some(i);
          var p := peers[i];
          p := p.(publicKey := p.publicKey + "-new");
          p := p.(id := p.publicKey);
          peers := peers[i := p];
          return Ok(PeerResponse(p, RegeneratedConfig, "", ""));
        }
        i := i + 1;
      }
      return Err(PeerNotFound);
    }

    /** Sets the name and the allowed IPs of the first peer with the id;
        fails for the id `force-error`, for an unknown id, and for the new
        name `force-error`, leaving the list as it was. */
    method UpdatePeer(id: string, u: PeerUpdate) returns (r: Result<Peer, Error>)
      modifies this
      ensures id == "force-error" ==> r == Err(Forced) && peers == old(peers)
      ensures id != "force-error" && FirstWithId(old(peers), id).None? ==> r == Err(PeerNotFound) && peers == old(peers)
      ensures id != "force-error" && FirstWithId(old(peers), id).Some? && u.name == Some("force-error") ==>
        r == Err(Forced) && peers == old(peers)
      ensures id != "force-error" && FirstWithId(old(peers), id).Some? && u.name != Some("force-error") ==>
        var i := FirstWithId(old(peers), id).value;
        r == Ok(MockUpdated(old(peers)[i], u)) && peers == old(peers)[i := MockUpdated(old(peers)[i], u)]
    {
      if id == "force-error" {
        return Err(Forced);
      }
      var i := 0;
      while i < |peers|
        invariant 0 <= i <= |peers|
        invariant forall j :: 0 <= j < i ==> peers[j].id != id
      {
        if peers[i].id == id {
          assert FirstWithId(peers, id) == Some(i);
          var p := peers[i];
          if u.name.Some? {
            if u.name.value == "force-error" {
              return Err(Forced);
            }
            p := p.(name := u.name.value);
          }
          if u.allowedIPs.Some? {
            p := p.(allowedIPs := u.allowedIPs.value);
          }
          peers := peers[i := p];
          return Ok(p);
        }
        i := i + 1;
      }
      return Err(PeerNotFound);
    }

    /** Fixed statistics whose peer count is the list length; fails when
        some peer is named `force-stats-error`. */
    method GetStats() returns (r: Result<Stats, Error>)
      ensures r.Err? <==> HasName(peers, "force-stats-error")
      ensures r.Ok? ==> r.value == MockStats(|peers|)
    {
      var i := 0;
      while i < |peers|
        invariant 0 <= i <= |peers|
        invariant forall j :: 0 <= j < i ==> peers[j].name != "force-stats-error"
      {
        if peers[i].name == "force-stats-error" {
          return Err(Forced);
        }
        i := i + 1;
      }
      return Ok(MockStats(|peers|));
    }

    /** The name, public key and allowed IPs of the first peer with the id. */
    method GetPeerMetadata(id: string) returns (m: PeerMetadata, ok: bool)
      ensures ok <==> FirstWithId(peers, id).Some?
      ensures ok ==> var p := peers[FirstWithId(peers, id).value];
        m == EmptyMetadata.(name := p.name, publicKey := p.publicKey, allowedIPs := p.allowedIPs)
      ensures !ok ==> m == EmptyMetadata
    {
      var i := 0;
      while i < |peers|
        invariant 0 <= i <= |peers|
        invariant forall j :: 0 <= j < i ==> peers[j].id != id
      {
        if peers[i].id == id {
          assert FirstWithId(peers, id) == Some(i);
          var p := peers[i];
          return PeerMetadata(p.publicKey, "", "", p.name, p.allowedIPs, "", 0, 0, ""), true;
        }
        i := i + 1;
      }
      return EmptyMetadata, false;
    }
  }
}
