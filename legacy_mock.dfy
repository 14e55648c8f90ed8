/** The earlier mock service of backend/wireguard: `ListPeers` answers a
    fixed pair of peers, while `AddPeer` and `RemovePeer` edit a
    package-level list (`mockPeers`) that nothing ever lists. The package
    state is modelled as one object shared by every service value. */
module LegacyMock {
  import opened Wrappers
  import opened Text

  /** The peer record of this package. */
  datatype LegacyPeer = LegacyPeer(id: string, publicKey: string, endpoint: string, allowedIPs: seq<string>)

  /** The peers `ListPeers` answers, whatever has been added or removed. */
  const FixedPeers: seq<LegacyPeer> := [
    LegacyPeer("mock-peer-1", "ABC...", "192.168.1.1:51820", ["10.0.0.2/32"]),
    LegacyPeer("mock-peer-2", "XYZ...", "192.168.1.2:51820", ["10.0.0.3/32"])]

  /** The position of the first peer with the id. */
  function FirstIndex(peers: seq<LegacyPeer>, id: string): (r: Option<nat>)
    ensures r.Some? ==> r.value < |peers| && peers[r.value].id == id
    ensures r.Some? ==> forall j :: 0 <= j < r.value ==> peers[j].id != id
    ensures r.None? ==> forall j :: 0 <= j < |peers| ==> peers[j].id != id
  {
    if peers == [] then None
    else if peers[0].id == id then Some(0)
    else
      match FirstIndex(peers[1..], id)
      case None => None
      case Some(i) => Some(i + 1)
  }

  /** The id `AddPeer` gives when the list holds `n` peers. */
  function LegacyId(n: nat): string {
    "mock-peer-" + NatToString(n + 1)
  }

  class LegacyStore {
    /** `mockPeers`, nil at program start. */
    var mockPeers: seq<LegacyPeer>

    constructor ()
      ensures mockPeers == []
    {
      mockPeers := [];
    }

    /** Always the two fixed peers; the list is not consulted. */
    method ListPeers() returns (r: Result<seq<LegacyPeer>, string>)
      ensures r == Ok(FixedPeers)
    {
      return Ok(FixedPeers);
    }

    /** The peer with its id replaced by one numbered after the list
        length, appended; the other fields are kept as given. */
    method AddPeer(peer: LegacyPeer) returns (r: Result<LegacyPeer, string>)
      modifies this
      ensures r.Ok? && r.value == peer.(id := LegacyId(|old(mockPeers)|))
      ensures mockPeers == old(mockPeers) + [r.value]
    {
      var p := peer.(id := "mock-peer-" + NatToString(|mockPeers| + 1));
      mockPeers := mockPeers + [p];
      return Ok(p);
    }

    /** Removes the first peer with the id, keeping the others in order; an
        absent id is an error and changes nothing. */
    method RemovePeer(id: string) returns (err: Option<string>)
      modifies this
      ensures FirstIndex(old(mockPeers), id).None? ==>
        err == Some("mock peer with ID " + id + " not found") && mockPeers == old(mockPeers)
      ensures FirstIndex(old(mockPeers), id).Some? ==>
        var i := FirstIndex(old(mockPeers), id).value;
        err.None? && mockPeers == old(mockPeers)[..i] + old(mockPeers)[i + 1..]
    {
      var i := 0;
      while i < |mockPeers|
        invariant 0 <= i <= |mockPeers|
        invariant forall j :: 0 <= j < i ==> mockPeers[j].id != id
      {
        if mockPeers[i].id == id {
          assert FirstIndex(mockPeers, id) == Some(i);
          mockPeers := mockPeers[..i] + mockPeers[i + 1..];
          return None;
        }
        i := i + 1;
      }
      return Some("mock peer with ID " + id + " not found");
    }
  }
}
