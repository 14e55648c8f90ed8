/** The address allocator of the real service (`allocateNextIP`): it collects
    the addresses already taken, then walks the VPN subnet upwards from the
    network address, one address at a time with a byte-wise carry, and hands
    out the first address that is neither taken nor flagged by its broadcast
    test. The source keys its `usedIPs` map by the dotted-decimal rendering
    of each address; the rendering is injective (`IPv4.FormatInjective`), so
    the model keeps the addresses themselves. */
module Allocator {
  import opened Wrappers
  import opened IPv4

  // ---------------------------------------------------------------------------
  // Taken addresses

  /** The union of `f` over the elements of `xs`, taken left to right as
      the source's loops do. */
  function UnionOf<T>(xs: seq<T>, f: T -> set<Address>): set<Address> {
    if xs == [] then {} else UnionOf(xs[..|xs| - 1], f) + f(xs[|xs| - 1])
  }

  /** An entry of an allowed-IPs list parses to the address `s`. */
  predicate ParsesTo(entry: string, s: Address) {
    ParseCIDR(entry).Some? && ParseCIDR(entry).value.addr == s
  }

  /** The address of one allowed-IPs entry, none when it does not parse. */
  function EntryAddresses(entry: string): (r: set<Address>)
    ensures forall s :: s in r <==> ParsesTo(entry, s)
  {
    match ParseCIDR(entry)
    case Some(c) => {c.addr}
    case None => {}
  }

  /** The addresses of the entries of `ips` that parse as CIDRs;
      the others contribute nothing. */
  function ParsedAddresses(ips: seq<string>): set<Address> {
    UnionOf(ips, EntryAddresses)
  }

  /** The addresses of every peer's allowed IPs. */
  function PeerAddresses(peers: seq<seq<string>>): set<Address> {
    UnionOf(peers, ParsedAddresses)
  }

  /** The gateway the allocator reserves: the address of the configured
      server address when that is set and parses; nothing when it is set
      and does not parse; the network address with its last byte
      incremented when it is empty. */
  function Gateway(serverAddress: string, network: Address): (g: set<Address>)
    ensures serverAddress == "" ==> g == {FallbackGateway(network)}
    ensures serverAddress != "" && ParseCIDR(serverAddress).None? ==> g == {}
    ensures ParseCIDR(serverAddress).Some? ==> g == {ParseCIDR(serverAddress).value.addr}
  {
    if serverAddress != "" then
      match ParseCIDR(serverAddress)
      case Some(c) => {c.addr}
      case None => {}
    else {FallbackGateway(network)}
  }

  /** Every taken address: the gateway, and the peers' addresses when the
      peer list could be read (`None` stands for a failed `ListPeers`). */
  function Taken(serverAddress: string, network: Address, peers: Option<seq<seq<string>>>): set<Address> {
    Gateway(serverAddress, network) + match peers case Some(ps) => PeerAddresses(ps) case None => {}
  }

  /** Every element of a union comes from one of the parts. */
  lemma {:induction false} UnionSound<T>(xs: seq<T>, f: T -> set<Address>, s: Address)
    requires s in UnionOf(xs, f)
    ensures exists k :: 0 <= k < |xs| && s in f(xs[k])
    decreases |xs|
  {
    var init := xs[..|xs| - 1];
    if s in UnionOf(init, f) {
      UnionSound(init, f, s);
      var k :| 0 <= k < |init| && s in f(init[k]);
      assert xs[k] == init[k];
    }
  }

  /** Every part is included in the union. */
  lemma {:induction false} UnionComplete<T>(xs: seq<T>, f: T -> set<Address>, k: nat, s: Address)
    requires k < |xs| && s in f(xs[k])
    ensures s in UnionOf(xs, f)
    decreases |xs|
  {
    var init := xs[..|xs| - 1];
    if k < |init| {
      assert init[k] == xs[k];
      UnionComplete(init, f, k, s);
    }
  }

  /** An address is among the parsed addresses exactly when some entry
      parses to it. */
  lemma ParsedAddressesIff(ips: seq<string>, s: Address)
    ensures s in ParsedAddresses(ips) <==> exists k :: 0 <= k < |ips| && ParsesTo(ips[k], s)
  {
    if s in ParsedAddresses(ips) {
      UnionSound(ips, EntryAddresses, s);
      var k :| 0 <= k < |ips| && s in EntryAddresses(ips[k]);
      assert ParsesTo(ips[k], s);
    }
    if exists k :: 0 <= k < |ips| && ParsesTo(ips[k], s) {
      var k :| 0 <= k < |ips| && ParsesTo(ips[k], s);
      UnionComplete(ips, EntryAddresses, k, s);
    }
  }

  /** An address is among the peers' addresses exactly when one allowed IP
      of one peer parses to it. */
  lemma PeerAddressesIff(peers: seq<seq<string>>, s: Address)
    ensures s in PeerAddresses(peers) <==>
            exists i :: 0 <= i < |peers| && s in ParsedAddresses(peers[i])
  {
    if s in PeerAddresses(peers) {
      UnionSound(peers, ParsedAddresses, s);
    }
    if exists i :: 0 <= i < |peers| && s in ParsedAddresses(peers[i]) {
      var i :| 0 <= i < |peers| && s in ParsedAddresses(peers[i]);
      UnionComplete(peers, ParsedAddresses, i, s);
    }
  }

  /** Builds the taken set as the source does: the gateway first, then every
      allowed IP of every peer, one by one. */
  method CollectTaken(serverAddress: string, network: Address, peers: Option<seq<seq<string>>>)
    returns (used: set<Address>)
    ensures used == Taken(serverAddress, network, peers)
  {
    used := ReserveGateway(serverAddress, network);
    if peers.Some? {
      used := AddPeers(used, peers.value);
    }
  }

  /** The first step: the configured server address, or the fallback
      gateway when none is configured. */
  method ReserveGateway(serverAddress: string, network: Address) returns (used: set<Address>)
    ensures used == Gateway(serverAddress, network)
  {
    used := {};
    if serverAddress != "" {
      var parsed := ParseCIDR(serverAddress);
      if parsed.Some? {
        used := used + {parsed.value.addr};
      }
    } else {
      var gw := FallbackGateway(network);
      used := used + {gw};
    }
  }

  /** The outer loop over the peers. */
  method AddPeers(used: set<Address>, ps: seq<seq<string>>) returns (r: set<Address>)
    ensures r == used + PeerAddresses(ps)
  {
    r := used;
    var i := 0;
    while i < |ps|
      invariant 0 <= i <= |ps|
      invariant r == used + PeerAddresses(ps[..i])
    {
      r := AddParsed(r, ps[i]);
      assert ps[..i + 1][..i] == ps[..i];
      i := i + 1;
    }
    assert ps[..i] == ps;
  }

  /** The inner loop over one peer's allowed IPs: adds the address of each
      entry that parses. */
  method AddParsed(used: set<Address>, ips: seq<string>) returns (r: set<Address>)
    ensures r == used + ParsedAddresses(ips)
  {
    r := used;
    var k := 0;
    while k < |ips|
      invariant 0 <= k <= |ips|
      invariant r == used + ParsedAddresses(ips[..k])
    {
      var parsed := ParseCIDR(ips[k]);
      if parsed.Some? {
        r := r + {parsed.value.addr};
      }
      assert ips[..k + 1][..k] == ips[..k];
      k := k + 1;
    }
    assert ips[..k] == ips;
  }

  // ---------------------------------------------------------------------------
  // The scan

  /** Whether the scan may hand out `a`: not flagged by the broadcast test
      and not taken. */
  predicate Free(prefix: nat, used: set<Address>, a: Address)
    requires prefix <= 32
  {
    !FlaggedBroadcast(a, prefix) && a !in used
  }

  predicate Aligned(network: Address, prefix: nat)
    requires prefix <= 32
  {
    network % Size(prefix) == 0
  }

  /** The first free address at or after `from` inside the network, or
      `None` when the network holds none. */
  function FirstFree(network: Address, prefix: nat, used: set<Address>, from: nat): Option<Address>
    requires prefix <= 32 && Aligned(network, prefix) && network < from
    decreases network + Size(prefix) - from
  {
    AlignedFits(network, prefix);
    if from >= network + Size(prefix) then None
    else if Free(prefix, used, from) then Some(from)
    else FirstFree(network, prefix, used, from + 1)
  }

  /** `FirstFree` returns a free address of the network at or after `from`
      with every address between `from` and it excluded, or `None` when every
      address from `from` to the end of the network is excluded. */
  lemma {:induction false} FirstFreeSpec(network: Address, prefix: nat, used: set<Address>, from: nat)
    requires prefix <= 32 && Aligned(network, prefix) && network < from
    ensures FirstFree(network, prefix, used, from).Some? ==>
      var a := FirstFree(network, prefix, used, from).value;
      from <= a < network + Size(prefix) && Contains(network, prefix, a) && Free(prefix, used, a) &&
      forall b: Address :: from <= b < a ==> !Free(prefix, used, b)
    ensures FirstFree(network, prefix, used, from).None? ==>
      forall b: Address :: from <= b < network + Size(prefix) ==> !Free(prefix, used, b)
    decreases network + Size(prefix) - from
  {
    AlignedFits(network, prefix);
    if from < network + Size(prefix) {
      if Free(prefix, used, from) {
        ContainsRange(network, prefix, from);
      } else {
        FirstFreeSpec(network, prefix, used, from + 1);
        var r := FirstFree(network, prefix, used, from + 1);
        assert FirstFree(network, prefix, used, from) == r;
        var last := if r.Some? then r.value else network + Size(prefix);
        forall b: Address | from <= b < last ensures !Free(prefix, used, b) {
          if b != from {
            assert from + 1 <= b;
          }
        }
      }
    }
  }

  /** An address that is free, inside the network and preceded only by
      excluded addresses is the one the scan returns. */
  lemma FirstFreeUnique(network: Address, prefix: nat, used: set<Address>, a: Address)
    requires prefix <= 32 && Aligned(network, prefix) && network < a < network + Size(prefix)
    requires Free(prefix, used, a)
    requires forall b: Address :: network < b < a ==> !Free(prefix, used, b)
    ensures FirstFree(network, prefix, used, network + 1) == Some(a)
  {
    FirstFreeSpec(network, prefix, used, network + 1);
  }

  /** In 10.0.0.0/24 the broadcast test flags nothing, so once 10.0.0.1 to
      10.0.0.254 are taken the scan hands out 10.0.0.255, the network's
      broadcast address. */
  lemma BroadcastHandedOut(used: set<Address>)
    requires forall b: Address :: 0x0A00_0000 < b < 0x0A00_00FF ==> b in used
    requires 0x0A00_00FF !in used
    ensures FirstFree(0x0A00_0000, 24, used, 0x0A00_0001) == Some(0x0A00_00FF)
  {
    assert Pow2(4) == 16;
    Pow2Add(4, 4);
    assert Size(24) == 256;
    ContainsRange(0x0A00_0000, 24, 0x0A00_00FF);
    FlaggedOnlyInZeroNetwork(0x0A00_0000, 24, 0x0A00_00FF);
    FirstFreeUnique(0x0A00_0000, 24, used, 0x0A00_00FF);
  }

  /** The walk over the subnet with the source's in-place 4-byte counter:
      increment with carry, stop once the address leaves the network, skip
      the flagged address and taken addresses. */
  method Scan(network: Address, prefix: nat, used: set<Address>) returns (r: Option<Address>)
    requires 1 <= prefix <= 32 && Aligned(network, prefix)
    ensures r == FirstFree(network, prefix, used, network + 1)
  {
    var mask := Octets(MaskValue(prefix));
    var ip := Counter(network);
    ghost var cur := network;
    while true
      invariant ip.Length == 4 && Value(ip[..]) == cur
      invariant network <= cur < network + Size(prefix)
      invariant FirstFree(network, prefix, used, network + 1) == FirstFree(network, prefix, used, cur + 1)
      decreases network + Size(prefix) - cur
    {
      var stop, found := Probe(ip, mask, network, prefix, used, cur);
      if stop {
        return found;
      }
      cur := cur + 1;
    }
  }

  /** The scan's 4-byte counter, set to the network address. */
  method Counter(network: Address) returns (ip: array<Byte>)
    ensures fresh(ip) && ip.Length == 4 && ip[..] == Octets(network)
  {
    var o := Octets(network);
    ip := new Byte[4](i requires 0 <= i < 4 => o[i]);
    assert ip[..] == o;
  }

  /** One turn of the scan: advance the counter, then stop with nothing at
      the end of the network, stop with an address that is free, or go on
      past a flagged or taken one. */
  method Probe(ip: array<Byte>, mask: seq<Byte>, network: Address, prefix: nat, used: set<Address>, ghost cur: nat)
    returns (stop: bool, found: Option<Address>)
    requires ip.Length == 4 && 1 <= prefix <= 32 && Aligned(network, prefix) && mask == Octets(MaskValue(prefix))
    requires Value(ip[..]) == cur && network <= cur < network + Size(prefix)
    modifies ip
    ensures stop ==> found == FirstFree(network, prefix, used, cur + 1)
    ensures !stop ==>
      Value(ip[..]) == cur + 1 < network + Size(prefix) &&
      FirstFree(network, prefix, used, cur + 1) == FirstFree(network, prefix, used, cur + 2)
  {
    AlignedFits(network, prefix);
    var next := Advance(ip, network, prefix);
    if next.None? {
      return true, None;
    }
    var a := next.value;
    var isBroadcast := MatchesComplement(ip, mask, prefix);
    ProbeOutcome(network, prefix, used, a, ip[..], isBroadcast);
    if isBroadcast || a in used {
      return false, None;
    }
    return true, Some(a);
  }

  /** What one turn learns about the address `a` it reached, given its
      bytes and the outcome of the broadcast test on them. */
  lemma ProbeOutcome(network: Address, prefix: nat, used: set<Address>, a: Address, bytes: seq<Byte>, isBroadcast: bool)
    requires prefix <= 32 && Aligned(network, prefix) && network < a < network + Size(prefix)
    requires Octets(a) == bytes && (isBroadcast <==> bytes == ComplementMask(prefix))
    ensures isBroadcast || a in used ==> FirstFree(network, prefix, used, a) == FirstFree(network, prefix, used, a + 1)
    ensures !(isBroadcast || a in used) ==> FirstFree(network, prefix, used, a) == Some(a)
  {
  }

  /** One unfolding of `FirstFree` inside the network. */
  lemma FirstFreeStep(network: Address, prefix: nat, used: set<Address>, a: Address)
    requires prefix <= 32 && Aligned(network, prefix) && network < a < network + Size(prefix)
    ensures FirstFree(network, prefix, used, a) ==
      if Free(prefix, used, a) then Some(a) else FirstFree(network, prefix, used, a + 1)
  {
  }

  /** One step of the scan: the counter incremented in place, and the new
      address when it is still inside the network. */
  method Advance(ip: array<Byte>, network: Address, prefix: nat) returns (next: Option<Address>)
    requires ip.Length == 4 && 1 <= prefix <= 32 && Aligned(network, prefix)
    requires network <= Value(ip[..]) < network + Size(prefix)
    modifies ip
    ensures next.None? <==> Value(old(ip[..])) + 1 == network + Size(prefix)
    ensures next.Some? ==> next.value == Value(old(ip[..])) + 1 && next.value == Value(ip[..]) && Octets(next.value) == ip[..]
  {
    AlignedFits(network, prefix);
    SizeAtMostHalf(prefix);
    Pow256Four();
    ghost var cur := Value(ip[..]);
    Increment(ip);
    var a := FromOctets(ip[..]);
    ContainsRange(network, prefix, a);
    if !Contains(network, prefix, a) {
      assert a != cur + 1 || cur + 1 == network + Size(prefix);
      return None;
    }
    return Some(a);
  }

  /** The source's broadcast test: every byte equals the complemented mask
      byte, compared from the last byte down. */
  method MatchesComplement(ip: array<Byte>, mask: seq<Byte>, prefix: nat) returns (isBroadcast: bool)
    requires ip.Length == 4 && prefix <= 32 && mask == Octets(MaskValue(prefix))
    ensures isBroadcast <==> ip[..] == ComplementMask(prefix)
  {
    isBroadcast := true;
    var j := 3;
    while j >= 0
      invariant -1 <= j <= 3
      invariant isBroadcast <==> forall k :: j < k < 4 ==> ip[k] == 255 - mask[k]
    {
      if ip[j] != 255 - mask[j] {
        isBroadcast := false;
        break;
      }
      j := j - 1;
    }
  }

  /** The address the allocator hands out in the subnet of `c`: the first
      free one after its network address. */
  function FirstFreeIn(c: Cidr, used: set<Address>): Option<Address>
    requires 1 <= c.prefix <= 32
  {
    var network := Network(c.addr, c.prefix);
    FirstFree(network, c.prefix, used, network + 1)
  }

  /** The scan over the subnet of `c`. */
  method ScanSubnet(c: Cidr, used: set<Address>) returns (r: Option<Address>)
    requires 1 <= c.prefix <= 32
    ensures r == FirstFreeIn(c, used)
  {
    r := Scan(Network(c.addr, c.prefix), c.prefix, used);
  }
}
