/** The real service (`realService`): it keeps the kernel device and the
    SQLite metadata store in step. The device is a table of peers with a
    flag saying whether it answers; key generation is passed in as the
    generators' outcomes. */
module Engine {
  import opened Wrappers
  import opened IPv4
  import opened WgTypes
  import opened Device
  import opened Allocator
  import opened SqliteStore
  import opened ConfigGen
  import opened ConfigMerge
  import opened History

  // ---------------------------------------------------------------------------
  // Allowed IPs

  /** `net.ParseCIDR` on every entry, each kept as its masked network,
      failing at the first entry that does not parse (`AddPeer`,
      `UpdatePeer`). */
  function ParseAllowedIPs(ips: seq<string>): (r: Result<seq<Cidr>, Error>)
    ensures r.Ok? ==> |r.value| == |ips| && forall c :: c in r.value ==> c.prefix <= 32
    ensures r.Err? ==> r.error.InvalidAllowedIP?
    decreases |ips|
  {
    if ips == [] then Ok([])
    else
      match ParseAllowedIPs(ips[..|ips| - 1])
      case Err(e) => Err(e)
      case Ok(cs) =>
        match ParseCIDR(ips[|ips| - 1])
        case None => Err(InvalidAllowedIP(ips[|ips| - 1]))
        case Some(c) => Ok(cs + [Masked(c)])
  }

  /** The entries are kept in order, each as its masked network. */
  lemma {:induction false} ParseAllowedIPsValues(ips: seq<string>, i: nat)
    requires ParseAllowedIPs(ips).Ok? && i < |ips|
    ensures ParseCIDR(ips[i]).Some? && ParseAllowedIPs(ips).value[i] == Masked(ParseCIDR(ips[i]).value)
    decreases |ips|
  {
    if i < |ips| - 1 {
      var init := ips[..|ips| - 1];
      ParseAllowedIPsValues(init, i);
      assert init[i] == ips[i];
    }
  }

  /** A failure names the first entry that does not parse. */
  lemma {:induction false} ParseAllowedIPsFirstError(ips: seq<string>)
    requires ParseAllowedIPs(ips).Err?
    ensures exists i :: 0 <= i < |ips| && ParseCIDR(ips[i]).None? && ParseAllowedIPs(ips).error == InvalidAllowedIP(ips[i]) &&
                        forall j :: 0 <= j < i ==> ParseCIDR(ips[j]).Some?
    decreases |ips|
  {
    var init := ips[..|ips| - 1];
    if ParseAllowedIPs(init).Err? {
      ParseAllowedIPsFirstError(init);
      var i :| 0 <= i < |init| && ParseCIDR(init[i]).None? && ParseAllowedIPs(init).error == InvalidAllowedIP(init[i]) &&
        forall j :: 0 <= j < i ==> ParseCIDR(init[j]).Some?;
      assert forall j :: 0 <= j <= i ==> init[j] == ips[j];
    } else {
      forall j | 0 <= j < |init| ensures ParseCIDR(ips[j]).Some? {
        ParseAllowedIPsValues(init, j);
        assert init[j] == ips[j];
      }
    }
  }

  /** A list whose every entry parses parses as a whole. */
  lemma ParseAllowedIPsComplete(ips: seq<string>)
    requires forall i :: 0 <= i < |ips| ==> ParseCIDR(ips[i]).Some?
    ensures ParseAllowedIPs(ips).Ok?
  {
  }

  /** Once a prefix of the list fails, the whole list fails the same way. */
  lemma {:induction false} ParseAllowedIPsFailed(ips: seq<string>, k: nat)
    requires k <= |ips| && ParseAllowedIPs(ips[..k]).Err?
    ensures ParseAllowedIPs(ips) == ParseAllowedIPs(ips[..k])
    decreases |ips| - k
  {
    if k < |ips| {
      assert ips[..k + 1][..k] == ips[..k];
      ParseAllowedIPsFailed(ips, k + 1);
    } else {
      assert ips[..k] == ips;
    }
  }

  /** The loop of `AddPeer` and `UpdatePeer` over the allowed IPs. */
  method ParseAll(ips: seq<string>) returns (r: Result<seq<Cidr>, Error>)
    ensures r == ParseAllowedIPs(ips)
  {
    var out: seq<Cidr> := [];
    var k := 0;
    while k < |ips|
      invariant 0 <= k <= |ips|
      invariant ParseAllowedIPs(ips[..k]) == Ok(out)
    {
      assert ips[..k + 1][..k] == ips[..k];
      var parsed := ParseCIDR(ips[k]);
      if parsed.None? {
        ParseAllowedIPsFailed(ips, k + 1);
        return Err(InvalidAllowedIP(ips[k]));
      }
      out := out + [Masked(parsed.value)];
      k := k + 1;
    }
    assert ips[..k] == ips;
    return Ok(out);
  }

  /** The entries that parse, masked, in order; the others are dropped
      (`Sync`). */
  function ValidAllowedIPs(ips: seq<string>): (r: seq<Cidr>)
    ensures |r| <= |ips| && forall c :: c in r ==> c.prefix <= 32
    decreases |ips|
  {
    if ips == [] then [] else ValidAllowedIPs(ips[..|ips| - 1]) + Kept(ips[|ips| - 1])
  }

  /** One entry's contribution: its masked prefix when it parses. */
  function Kept(ip: string): (r: seq<Cidr>)
    ensures |r| <= 1 && forall c :: c in r ==> c.prefix <= 32
  {
    match ParseCIDR(ip)
    case Some(c) => [Masked(c)]
    case None => []
  }

  /** One more entry adds its contribution at the end. */
  lemma ValidAllowedIPsSnoc(ips: seq<string>, k: nat)
    requires k < |ips|
    ensures ValidAllowedIPs(ips[..k + 1]) == ValidAllowedIPs(ips[..k]) + Kept(ips[k])
  {
    assert ips[..k + 1][..k] == ips[..k];
  }

  /** Dropping the bad entries of a list without any is what parsing it
      gives. */
  lemma {:induction false} ValidAllowedIPsAgree(ips: seq<string>)
    requires ParseAllowedIPs(ips).Ok?
    ensures ValidAllowedIPs(ips) == ParseAllowedIPs(ips).value
    decreases |ips|
  {
    if ips != [] {
      ValidAllowedIPsAgree(ips[..|ips| - 1]);
    }
  }

  /** The loop of `Sync` over one stored peer's allowed IPs. */
  method KeepValid(ips: seq<string>) returns (r: seq<Cidr>)
    ensures r == ValidAllowedIPs(ips)
  {
    r := [];
    var k := 0;
    while k < |ips|
      invariant 0 <= k <= |ips|
      invariant r == ValidAllowedIPs(ips[..k])
    {
      ValidAllowedIPsSnoc(ips, k);
      var kept := KeepOne(ips[k]);
      r := r + kept;
      k := k + 1;
    }
    assert ips[..k] == ips;
  }

  /** One turn of `KeepValid`: the masked prefix when the entry parses. */
  method KeepOne(ip: string) returns (kept: seq<Cidr>)
    ensures kept == Kept(ip)
  {
    kept := [];
    var parsed := ParseCIDR(ip);
    if parsed.Some? {
      kept := [Masked(parsed.value)];
    }
  }

  /** `IPNet.String()` of every prefix. */
  function FormatAll(cs: seq<Cidr>): (r: seq<string>)
    ensures |r| == |cs| && forall i :: 0 <= i < |cs| ==> r[i] == FormatCidr(cs[i])
  {
    seq(|cs|, i requires 0 <= i < |cs| => FormatCidr(cs[i]))
  }

  /** The loop of `ListPeers` over one peer's allowed IPs. */
  method FormatEach(cs: seq<Cidr>) returns (r: seq<string>)
    ensures r == FormatAll(cs)
  {
    r := [];
    var i := 0;
    while i < |cs|
      invariant 0 <= i <= |cs| && |r| == i
      invariant forall j :: 0 <= j < i ==> r[j] == FormatCidr(cs[j])
    {
      r := r + [FormatCidr(cs[i])];
      i := i + 1;
    }
  }

  /** Formatted prefixes always parse back as a list of allowed IPs. */
  lemma FormattedParse(cs: seq<Cidr>)
    requires forall c :: c in cs ==> c.prefix <= 32
    ensures ParseAllowedIPs(FormatAll(cs)).Ok?
  {
    var texts := FormatAll(cs);
    forall i | 0 <= i < |texts| ensures ParseCIDR(texts[i]).Some? {
      ParseFormatCidr(cs[i]);
    }
    ParseAllowedIPsComplete(texts);
  }

  /** Reading back formatted prefixes gives their addresses. */
  lemma FormattedAddresses(cs: seq<Cidr>, s: Address)
    requires forall c :: c in cs ==> c.prefix <= 32
    ensures s in ParsedAddresses(FormatAll(cs)) <==> exists c :: c in cs && c.addr == s
  {
    var texts := FormatAll(cs);
    ParsedAddressesIff(texts, s);
    if s in ParsedAddresses(texts) {
      var j :| 0 <= j < |texts| && ParsesTo(texts[j], s);
      ParseFormatCidr(cs[j]);
    }
    if exists c :: c in cs && c.addr == s {
      var c :| c in cs && c.addr == s;
      var j :| 0 <= j < |cs| && cs[j] == c;
      ParseFormatCidr(c);
      assert ParseCIDR(texts[j]) == Some(c);
    }
  }

  /** The allowed-IP lists of a peer listing. */
  function IPLists(ps: seq<Peer>): (r: seq<seq<string>>)
    ensures |r| == |ps| && forall i :: 0 <= i < |ps| ==> r[i] == ps[i].allowedIPs
  {
    seq(|ps|, i requires 0 <= i < |ps| => ps[i].allowedIPs)
  }

  /** A VPN subnet the allocator can walk: one that does not parse (the
      allocator then reports it), or one with a prefix of at least 1. */
  predicate SubnetUsable(vpnSubnet: string) {
    ParseCIDR(vpnSubnet).None? || ParseCIDR(vpnSubnet).value.prefix >= 1
  }

  /** The configuration `Sync` issues for a stored peer. */
  function SyncConfig(key: string, meta: PeerMetadata): PeerConfig {
    PeerConfig(key, false, false, true, None, ValidAllowedIPs(meta.allowedIPs))
  }

  /** The stored record `UpdatePeer` writes: every field given in `u`
      replaced, the allowed IPs and the keys kept. */
  function ApplyUpdate(meta: PeerMetadata, u: PeerUpdate): (m: PeerMetadata)
    ensures m.publicKey == meta.publicKey && m.privateKey == meta.privateKey
    ensures m.presharedKey == meta.presharedKey && m.allowedIPs == meta.allowedIPs
    ensures m.name == u.name.GetOr(meta.name) && m.dns == u.dns.GetOr(meta.dns)
    ensures m.mtu == u.mtu.GetOr(meta.mtu) && m.persistentKeepalive == u.persistentKeepalive.GetOr(meta.persistentKeepalive)
    ensures m.interfaceAddress == u.interfaceAddress.GetOr(meta.interfaceAddress)
    ensures !ChangesMetadata(u) ==> m == meta
  {
    var m := if u.name.Some? then meta.(name := u.name.value) else meta;
    var m := if u.dns.Some? then m.(dns := u.dns.value) else m;
    var m := if u.mtu.Some? then m.(mtu := u.mtu.value) else m;
    var m := if u.persistentKeepalive.Some? then m.(persistentKeepalive := u.persistentKeepalive.value) else m;
    if u.interfaceAddress.Some? then m.(interfaceAddress := u.interfaceAddress.value) else m
  }

  /** What `AddPeer` has settled before it touches the device. */
  datatype Admission = Admission(publicKey: string, privateKey: string, psk: string,
                                 allowedIPs: seq<string>, config: PeerConfig)

  /** `a` is what `AddPeer` settles on for these options and generator
      outcomes: the given key or the generated pair, the generated
      preshared key only when one is asked for, the given allowed IPs or
      one allocated address, all parsed into an additive configuration. */
  predicate AdmittedFrom(a: Admission, opts: AddPeerOptions, keyGen: Option<KeyPair>, pskGen: Option<string>) {
    IsKey(a.publicKey) &&
    (opts.publicKey != "" ==> a.publicKey == opts.publicKey && a.privateKey == "") &&
    (opts.publicKey == "" ==> keyGen == Some(KeyPair(a.publicKey, a.privateKey))) &&
    (if opts.preSharedKey then pskGen == Some(a.psk) else a.psk == "") &&
    (opts.allowedIPs != [] ==> a.allowedIPs == opts.allowedIPs) &&
    (opts.allowedIPs == [] ==> |a.allowedIPs| == 1) &&
    ParseAllowedIPs(a.allowedIPs).Ok? &&
    (a.psk != "" ==> IsKey(a.psk)) &&
    a.config == PeerConfig(a.publicKey, false, false, true,
                           if a.psk == "" then None else Some(a.psk), ParseAllowedIPs(a.allowedIPs).value) &&
    ValidConfig(a.config)
  }

  /** The addresses of every allowed IP in a device table. */
  ghost function AddressesOf(dev: map<string, DevicePeer>): set<Address> {
    set k, c | k in dev && c in dev[k].allowedIPs :: c.addr
  }

  /** What `allocateNextIP` answers for the VPN subnet `subnet`, the
      server address `server` and the addresses `onDevice` read from the
      device: the first address after the network address that is neither
      the gateway nor on the device, as a /32. */
  ghost function AllocationFor(subnet: string, server: string, onDevice: set<Address>): Result<string, Error>
    requires SubnetUsable(subnet)
  {
    match ParseCIDR(subnet)
    case None => Err(InvalidSubnet)
    case Some(c) =>
      match FirstFreeIn(c, Gateway(server, Network(c.addr, c.prefix)) + onDevice)
      case None => Err(SubnetExhausted)
      case Some(a) => Ok(FormatCidr(Cidr(a, 32)))
  }

  /** An allocated address parses back as a one-entry list of allowed IPs. */
  lemma AllocationParses(subnet: string, server: string, onDevice: set<Address>)
    requires SubnetUsable(subnet) && AllocationFor(subnet, server, onDevice).Ok?
    ensures ParseAllowedIPs([AllocationFor(subnet, server, onDevice).value]).Ok?
  {
    var c := ParseCIDR(subnet).value;
    var a := FirstFreeIn(c, Gateway(server, Network(c.addr, c.prefix)) + onDevice).value;
    FormattedParse([Cidr(a, 32)]);
    assert FormatAll([Cidr(a, 32)]) == [AllocationFor(subnet, server, onDevice).value];
  }

  /** The keys `AddPeer` settles on before anything else. */
  datatype KeyChoice = KeyChoice(publicKey: string, privateKey: string, psk: string)

  /** The first steps of `AddPeer`: the given public key, or a generated
      pair when none is given; a generated preshared key when one is asked
      for; then the public key is checked. */
  method ChooseKeys(opts: AddPeerOptions, keyGen: Option<KeyPair>, pskGen: Option<string>)
    returns (r: Result<KeyChoice, Error>)
    ensures r.Err? ==> r.error == KeyGenerationFailed || r.error == InvalidPublicKey
    ensures r.Err? <==>
      (opts.publicKey == "" && keyGen.None?) || (opts.preSharedKey && pskGen.None?) ||
      !IsKey(if opts.publicKey != "" then opts.publicKey else keyGen.value.publicKey)
    ensures r.Ok? ==>
      var k := r.value.publicKey;
      IsKey(k) &&
      (opts.publicKey != "" ==> k == opts.publicKey && r.value.privateKey == "") &&
      (opts.publicKey == "" ==> keyGen == Some(KeyPair(k, r.value.privateKey))) &&
      (if opts.preSharedKey then pskGen == Some(r.value.psk) else r.value.psk == "")
  {
    var publicKey := opts.publicKey;
    var privateKey := "";
    if publicKey == "" {
      if keyGen.None? {
        return Err(KeyGenerationFailed);
      }
      publicKey := keyGen.value.publicKey;
      privateKey := keyGen.value.privateKey;
    }
    var psk := "";
    if opts.preSharedKey {
      if pskGen.None? {
        return Err(KeyGenerationFailed);
      }
      psk := pskGen.value;
    }
    if !IsKey(publicKey) {
      return Err(InvalidPublicKey);
    }
    return Ok(KeyChoice(publicKey, privateKey, psk));
  }

  /** Whether an update touches a stored field. */
  predicate ChangesMetadata(u: PeerUpdate) {
    u.name.Some? || u.dns.Some? || u.mtu.Some? || u.persistentKeepalive.Some? || u.interfaceAddress.Some?
  }

  class Service {
    var device: map<string, DevicePeer>
    var deviceUp: bool
    const storage: SQLiteStorage
    var history: seq<StatsHistoryItem>
    const serverPubKey: string
    const serverEndpoint: string
    const vpnSubnet: string

    ghost predicate Valid()
      reads this, storage
    {
      storage.Valid() && WellFormed(device) && |history| <= MaxHistory
    }

    /** A service over an opened store and an existing device. */
    constructor (store: SQLiteStorage, dev: map<string, DevicePeer>, up: bool,
                 pubKey: string, endpoint: string, subnet: string)
      requires store.Valid() && WellFormed(dev)
      ensures Valid()
      ensures storage == store && device == dev && deviceUp == up && history == []
      ensures serverPubKey == pubKey && serverEndpoint == endpoint && vpnSubnet == subnet
    {
      storage := store;
      device := dev;
      deviceUp := up;
      history := [];
      serverPubKey := pubKey;
      serverEndpoint := endpoint;
      vpnSubnet := subnet;
    }

    // -------------------------------------------------------------------------
    // The device

    /** `ConfigureDevice`: all configurations or, when the device does not
        answer, none. */
    method ConfigureDevice(configs: seq<PeerConfig>) returns (ok: bool)
      requires Valid()
      requires forall i :: 0 <= i < |configs| ==> ValidConfig(configs[i])
      modifies this`device
      ensures Valid() && ok == deviceUp
      ensures device == if ok then Apply(old(device), configs) else old(device)
    {
      if !deviceUp {
        return false;
      }
      ApplyWellFormed(device, configs);
      device := Apply(device, configs);
      return true;
    }

    /** The name the store holds for `key`, or none. */
    function NameOf(key: string): string
      reads storage
    {
      if storage.healthy && key in storage.peers then storage.peers[key].name else ""
    }

    /** How `ListPeers` shows the device peer `key`. */
    function View(key: string): Peer
      reads this, storage
      requires key in device
    {
      var d := device[key];
      Peer(key, key, NameOf(key), d.endpoint, FormatAll(d.allowedIPs), d.lastHandshake, d.receiveBytes, d.transmitBytes, "")
    }

    /** `ps` shows every device peer exactly once, in some order. */
    ghost predicate IsListing(ps: seq<Peer>)
      reads this, storage
    {
      Lists(ps, device.Keys)
    }

    /** `ps` shows exactly the device peers in `keys`, each once. */
    ghost predicate Lists(ps: seq<Peer>, keys: set<string>)
      reads this, storage
      decreases |ps|
    {
      if ps == [] then keys == {}
      else
        var p := ps[|ps| - 1];
        p.id in keys && p.id in device && p == View(p.id) && Lists(ps[..|ps| - 1], keys - {p.id})
    }

    lemma ListsAppend(ps: seq<Peer>, keys: set<string>, p: Peer)
      requires Lists(ps, keys) && p.id in device && p.id !in keys && p == View(p.id)
      ensures Lists(ps + [p], keys + {p.id})
    {
    }

    /** One turn of the listing loop: the peer taken from the keys still
        to do moves to the listing. */
    lemma ListStep(out: seq<Peer>, done: set<string>, remaining: set<string>, p: Peer)
      requires done !! remaining && done + remaining == device.Keys && Lists(out, done)
      requires p.id in remaining && p == View(p.id)
      ensures done + {p.id} !! remaining - {p.id} && (done + {p.id}) + (remaining - {p.id}) == device.Keys
      ensures Lists(out + [p], done + {p.id}) && |remaining - {p.id}| < |remaining|
    {
    }

    /** A listing of `keys` has one entry per key, in some order, each the
        view of its device peer. */
    lemma {:induction false} ListsEntries(ps: seq<Peer>, keys: set<string>)
      requires Lists(ps, keys)
      ensures |ps| == |keys|
      ensures forall i :: 0 <= i < |ps| ==> ps[i].id in keys && ps[i].id in device && ps[i] == View(ps[i].id)
      decreases |ps|
    {
      if ps != [] {
        var n := |ps| - 1;
        ListsEntries(ps[..n], keys - {ps[n].id});
        assert forall i :: 0 <= i < n ==> ps[i] == ps[..n][i];
      }
    }

    /** Every key of a listing has its entry. */
    lemma {:induction false} ListsCovers(ps: seq<Peer>, keys: set<string>, k: string)
      requires Lists(ps, keys) && k in keys
      ensures exists i :: 0 <= i < |ps| && ps[i].id == k
      decreases |ps|
    {
      var n := |ps| - 1;
      if ps[n].id != k {
        ListsCovers(ps[..n], keys - {ps[n].id}, k);
        var i :| 0 <= i < n && ps[..n][i].id == k;
        assert ps[i].id == k;
      }
    }

    /** One device peer with its stored name, the store's failure read as
        no name. */
    method ShowPeer(k: string) returns (p: Peer)
      requires Valid() && k in device
      ensures p == View(k)
    {
      var meta, found := storage.GetMetadata(k);
      var name := if found then meta.name else "";
      var d := device[k];
      var ips := FormatEach(d.allowedIPs);
      p := Peer(k, k, name, d.endpoint, ips, d.lastHandshake, d.receiveBytes, d.transmitBytes, "");
    }

    /** Every device peer with its stored name; `None` when the device does
        not answer. */
    method ListPeers() returns (r: Option<seq<Peer>>)
      requires Valid()
      ensures r.None? <==> !deviceUp
      ensures r.Some? ==> IsListing(r.value)
    {
      if !deviceUp {
        return None;
      }
      var out: seq<Peer> := [];
      var remaining := device.Keys;
      ghost var done: set<string> := {};
      while remaining != {}
        invariant done !! remaining && done + remaining == device.Keys
        invariant Lists(out, done)
        decreases |remaining|
      {
        var k :| k in remaining;
        var p := ShowPeer(k);
        ListStep(out, done, remaining, p);
        out := out + [p];
        done := done + {k};
        remaining := remaining - {k};
      }
      return Some(out);
    }

    // -------------------------------------------------------------------------
    // Allocation

    /** The addresses of every allowed IP on the device. */
    ghost function DeviceAddresses(): set<Address>
      reads this
    {
      AddressesOf(device)
    }

    /** What `allocateNextIP` answers in the current state: the first free
        address after the network address of the VPN subnet, as a /32. The
        gateway and, when the device answers, every address on it are taken. */
    ghost function Allocation(): Result<string, Error>
      reads this, storage
      requires SubnetUsable(vpnSubnet)
    {
      AllocationFor(vpnSubnet, storage.CurrentSettings().serverAddress, if deviceUp then DeviceAddresses() else {})
    }

    /** The addresses the allocator reads back from a listing are the
        addresses on the device. */
    lemma ListingAddresses(ps: seq<Peer>)
      requires Valid() && IsListing(ps)
      ensures PeerAddresses(IPLists(ps)) == DeviceAddresses()
    {
      ListsEntries(ps, device.Keys);
      forall s: Address ensures s in PeerAddresses(IPLists(ps)) <==> s in DeviceAddresses() {
        if s in PeerAddresses(IPLists(ps)) {
          ListingAddressSound(ps, s);
        }
        if s in DeviceAddresses() {
          ListingAddressComplete(ps, s);
        }
      }
    }

    /** An address read from a listing is on the device. */
    lemma ListingAddressSound(ps: seq<Peer>, s: Address)
      requires Valid() && IsListing(ps) && s in PeerAddresses(IPLists(ps))
      requires forall i :: 0 <= i < |ps| ==> ps[i].id in device && ps[i] == View(ps[i].id)
      ensures s in DeviceAddresses()
    {
      var lists := IPLists(ps);
      PeerAddressesIff(lists, s);
      var i :| 0 <= i < |lists| && s in ParsedAddresses(lists[i]);
      var k := ps[i].id;
      assert lists[i] == FormatAll(device[k].allowedIPs);
      FormattedAddresses(device[k].allowedIPs, s);
      var c :| c in device[k].allowedIPs && c.addr == s;
    }

    /** An address on the device is read from a listing. */
    lemma ListingAddressComplete(ps: seq<Peer>, s: Address)
      requires Valid() && IsListing(ps) && s in DeviceAddresses()
      requires forall i :: 0 <= i < |ps| ==> ps[i].id in device && ps[i] == View(ps[i].id)
      ensures s in PeerAddresses(IPLists(ps))
    {
      var lists := IPLists(ps);
      var k, c :| k in device && c in device[k].allowedIPs && c.addr == s;
      ListsCovers(ps, device.Keys, k);
      var i :| 0 <= i < |ps| && ps[i].id == k;
      assert lists[i] == FormatAll(device[k].allowedIPs);
      FormattedAddresses(device[k].allowedIPs, s);
      PeerAddressesIff(lists, s);
    }

    /** The addresses `allocateNextIP` treats as taken: the gateway and,
        when the device answers, every address on it. */
    ghost function TakenNow(network: Address): set<Address>
      reads this, storage
    {
      Gateway(storage.CurrentSettings().serverAddress, network) + (if deviceUp then DeviceAddresses() else {})
    }

    /** The first part of `allocateNextIP`: reading the settings and the
        device peers into the taken set. */
    method CollectUsed(network: Address) returns (used: set<Address>)
      requires Valid()
      ensures used == TakenNow(network)
    {
      var settings := storage.GetSettings();
      var peers := ListPeers();
      var lists: Option<seq<seq<string>>> := None;
      if peers.Some? {
        lists := Some(IPLists(peers.value));
        ListingAddresses(peers.value);
      }
      used := CollectTaken(settings.serverAddress, network, lists);
    }

    /** `allocateNextIP`. */
    method AllocateNextIP() returns (r: Result<string, Error>)
      requires Valid() && SubnetUsable(vpnSubnet)
      ensures r == Allocation()
    {
      var parsed := ParseCIDR(vpnSubnet);
      if parsed.None? {
        return Err(InvalidSubnet);
      }
      var c := parsed.value;
      var used := CollectUsed(Network(c.addr, c.prefix));
      var found := ScanSubnet(c, used);
      if found.None? {
        return Err(SubnetExhausted);
      }
      return Ok(FormatCidr(Cidr(found.value, 32)));
    }
  
    // -------------------------------------------------------------------------
    // Configuration text

    /** `generateConfigForMetadata`: the settings are read only for a peer
        with a private key. */
    method ConfigFor(meta: PeerMetadata) returns (text: string)
      ensures text == ConfigForMetadata(meta, storage.CurrentSettings(), serverPubKey, serverEndpoint)
    {
      if meta.privateKey == "" {
        return "";
      }
      var settings := storage.GetSettings();
      text := GenerateConfigString(MergedInfo(meta, settings, serverPubKey, serverEndpoint));
    }

    /** `GetPeerConfig`: the stored peer's configuration; an error for an
        unknown peer and for one whose private key is not stored. */
    method GetPeerConfig(id: string) returns (r: Result<string, Error>)
      requires Valid()
      ensures r.Ok? <==> storage.healthy && id in storage.peers && storage.peers[id].privateKey != ""
      ensures !(storage.healthy && id in storage.peers) ==> r == Err(PeerNotFound)
      ensures storage.healthy && id in storage.peers && storage.peers[id].privateKey == "" ==> r == Err(ConfigUnavailable)
      ensures r.Ok? ==> r.value == ConfigForMetadata(storage.peers[id], storage.CurrentSettings(), serverPubKey, serverEndpoint)
    {
      var meta, ok := storage.GetMetadata(id);
      if !ok {
        return Err(PeerNotFound);
      }
      var text := ConfigFor(meta);
      if text == "" {
        return Err(ConfigUnavailable);
      }
      return Ok(text);
    }

    /** `GetPeerMetadata`: the stored record, as the store answers. */
    method GetPeerMetadata(id: string) returns (m: PeerMetadata, ok: bool)
      requires Valid()
      ensures ok <==> storage.healthy && id in storage.peers
      ensures ok ==> m == storage.peers[id]
      ensures !ok ==> m == EmptyMetadata
    {
      m, ok := storage.GetMetadata(id);
    }

    // -------------------------------------------------------------------------
    // Adding and removing peers

    /** The second half of `AddPeer`: the admitted peer goes to the device,
        then its record to the store, and its configuration is rendered. */
    method Commit(a: Admission, opts: AddPeerOptions) returns (r: Result<PeerResponse, Error>)
      requires Valid() && ValidConfig(a.config)
      modifies this`device, storage`peers
      ensures Valid()
      ensures r.Err? ==> r.error == DeviceFailure || r.error == StorageFailure
      ensures r == Err(DeviceFailure) ==> !deviceUp && device == old(device) && storage.peers == old(storage.peers)
      ensures r == Err(StorageFailure) ==>
        deviceUp && !storage.healthy && storage.peers == old(storage.peers) && device == ApplyPeer(old(device), a.config)
      ensures r.Err? <==> !deviceUp || !storage.healthy
      ensures r.Ok? ==>
        var meta := PeerMetadata(a.publicKey, a.privateKey, a.psk, opts.name, a.allowedIPs,
                                 opts.dns, opts.mtu, opts.persistentKeepalive, opts.interfaceAddress);
        device == ApplyPeer(old(device), a.config) &&
        storage.peers == old(storage.peers)[a.publicKey := meta] &&
        r.value == PeerResponse(Peer(a.publicKey, a.publicKey, opts.name, "", a.allowedIPs, "", 0, 0, ""),
                                ConfigForMetadata(meta, storage.CurrentSettings(), serverPubKey, serverEndpoint),
                                a.privateKey, a.psk)
    {
      var configured := ConfigureDevice([a.config]);
      if !configured {
        return Err(DeviceFailure);
      }
      assert device == ApplyPeer(old(device), a.config) by {
        assert [a.config][1..] == [];
      }
      var meta := PeerMetadata(a.publicKey, a.privateKey, a.psk, opts.name, a.allowedIPs,
                               opts.dns, opts.mtu, opts.persistentKeepalive, opts.interfaceAddress);
      var saved := storage.SetMetadata(a.publicKey, meta);
      if !saved {
        return Err(StorageFailure);
      }
      var text := ConfigFor(meta);
      return Ok(PeerResponse(Peer(a.publicKey, a.publicKey, opts.name, "", a.allowedIPs, "", 0, 0, ""), text, a.privateKey, a.psk));
    }

    /** The allowed IPs `AddPeer` uses: the given ones, or the next free
        address when none are given. */
    method ChooseIPs(given: seq<string>) returns (r: Result<seq<string>, Error>)
      requires Valid() && (given != [] || SubnetUsable(vpnSubnet))
      ensures given != [] ==> r == Ok(given)
      ensures given == [] ==> r == match Allocation() case Ok(ip) => Ok([ip]) case Err(e) => Err(e)
    {
      if |given| > 0 {
        return Ok(given);
      }
      var next := AllocateNextIP();
      if next.Err? {
        return Err(next.error);
      }
      return Ok([next.value]);
    }

    /** When the checks of `AddPeer` pass: a key is given or generated and
        is valid, the preshared key asked for is generated and is empty or
        valid, the given allowed IPs all parse, and when none are given an
        address is free. */
    ghost predicate Admissible(opts: AddPeerOptions, keyGen: Option<KeyPair>, pskGen: Option<string>)
      reads this, storage
      requires opts.allowedIPs != [] || SubnetUsable(vpnSubnet)
    {
      (opts.publicKey != "" || keyGen.Some?) &&
      (opts.preSharedKey ==> pskGen.Some?) &&
      IsKey(if opts.publicKey != "" then opts.publicKey else keyGen.value.publicKey) &&
      (opts.preSharedKey && pskGen.value != "" ==> IsKey(pskGen.value)) &&
      (opts.allowedIPs != [] ==> ParseAllowedIPs(opts.allowedIPs).Ok?) &&
      (opts.allowedIPs == [] ==> Allocation().Ok?)
    }

    /** The checks `AddPeer` makes before touching the device: the key, the
        preshared key, the allowed IPs (allocated when none are given) and
        the device configuration built from them. */
    method Admit(opts: AddPeerOptions, keyGen: Option<KeyPair>, pskGen: Option<string>)
      returns (r: Result<Admission, Error>)
      requires Valid() && (opts.allowedIPs != [] || SubnetUsable(vpnSubnet))
      ensures r.Err? ==> r.error != StorageFailure && r.error != DeviceFailure
      ensures opts.allowedIPs != [] && ParseAllowedIPs(opts.allowedIPs).Err? ==> r.Err?
      ensures r.Ok? <==> Admissible(opts, keyGen, pskGen)
      ensures r.Ok? ==> AdmittedFrom(r.value, opts, keyGen, pskGen)
      ensures r.Ok? && opts.allowedIPs == [] ==> Allocation() == Ok(r.value.allowedIPs[0])
    {
      var keys := ChooseKeys(opts, keyGen, pskGen);
      if keys.Err? {
        return Err(keys.error);
      }
      var KeyChoice(publicKey, privateKey, psk) := keys.value;
      var chosen := ChooseIPs(opts.allowedIPs);
      if chosen.Err? {
        return Err(chosen.error);
      }
      var allowedIPs := chosen.value;
      if opts.allowedIPs == [] {
        AllocationParses(vpnSubnet, storage.CurrentSettings().serverAddress, if deviceUp then DeviceAddresses() else {});
      }
      var parsed := ParseAll(allowedIPs);
      if parsed.Err? {
        return Err(parsed.error);
      }
      var presharedKey: Option<string> := None;
      if psk != "" {
        if !IsKey(psk) {
          return Err(InvalidPresharedKey);
        }
        presharedKey := Some(psk);
      }
      var config := PeerConfig(publicKey, false, false, true, presharedKey, parsed.value);
      var a := Admission(publicKey, privateKey, psk, allowedIPs, config);
      assert ParseAllowedIPs(allowedIPs) == parsed;
      assert ValidConfig(config);
      assert AdmittedFrom(a, opts, keyGen, pskGen);
      return Ok(a);
    }

    /** `AddPeer`. The generators' outcomes are parameters: `keyGen` is the
        key pair generated when no public key is given, `pskGen` the
        preshared key generated when one is asked for, `None` a failed
        generation. The device is configured first and the record stored
        second; the allowed IPs are allocated when none are given and are
        all checked before the device is touched. */
    method AddPeer(opts: AddPeerOptions, keyGen: Option<KeyPair>, pskGen: Option<string>)
      returns (r: Result<PeerResponse, Error>)
      requires Valid() && (opts.allowedIPs != [] || SubnetUsable(vpnSubnet))
      modifies this`device, storage`peers
      ensures Valid()
      ensures r.Ok? <==> old(Admissible(opts, keyGen, pskGen)) && deviceUp && storage.healthy
      ensures r.Err? && r.error != StorageFailure ==> device == old(device) && storage.peers == old(storage.peers)
      ensures r == Err(StorageFailure) ==> storage.peers == old(storage.peers) && !storage.healthy && deviceUp
      ensures r == Err(StorageFailure) ==>
        exists a: Admission :: AdmittedFrom(a, opts, keyGen, pskGen) &&
          (opts.allowedIPs == [] ==> old(Allocation()) == Ok(a.allowedIPs[0])) &&
          device == ApplyPeer(old(device), a.config)
      ensures !deviceUp ==> r.Err? && r.error != StorageFailure
      ensures opts.allowedIPs != [] && ParseAllowedIPs(opts.allowedIPs).Err? ==> r.Err? && r.error != StorageFailure
      ensures r.Ok? ==>
        var k := r.value.peer.publicKey;
        IsKey(k) &&
        (opts.publicKey != "" ==> k == opts.publicKey && r.value.privateKey == "") &&
        (opts.publicKey == "" ==> keyGen == Some(KeyPair(k, r.value.privateKey))) &&
        (if opts.preSharedKey then pskGen == Some(r.value.presharedKey) else r.value.presharedKey == "")
      ensures r.Ok? ==>
        var ips := r.value.peer.allowedIPs;
        (opts.allowedIPs != [] ==> ips == opts.allowedIPs) &&
        (opts.allowedIPs == [] ==> |ips| == 1 && old(Allocation()) == Ok(ips[0])) &&
        ParseAllowedIPs(ips).Ok? &&
        r.value.peer == Peer(r.value.peer.publicKey, r.value.peer.publicKey, opts.name, "", ips, "", 0, 0, "")
      ensures r.Ok? ==>
        var k := r.value.peer.publicKey;
        var ips := r.value.peer.allowedIPs;
        var psk := r.value.presharedKey;
        device == ApplyPeer(old(device), PeerConfig(k, false, false, true, if psk == "" then None else Some(psk), ParseAllowedIPs(ips).value))
      ensures r.Ok? ==>
        var k := r.value.peer.publicKey;
        var meta := PeerMetadata(k, r.value.privateKey, r.value.presharedKey, opts.name, r.value.peer.allowedIPs,
                                 opts.dns, opts.mtu, opts.persistentKeepalive, opts.interfaceAddress);
        storage.peers == old(storage.peers)[k := meta] &&
        r.value.config == ConfigForMetadata(meta, storage.CurrentSettings(), serverPubKey, serverEndpoint)
    {
      var admitted := Admit(opts, keyGen, pskGen);
      if admitted.Err? {
        return Err(admitted.error);
      }
      var a := admitted.value;
      assert opts.allowedIPs == [] ==> |a.allowedIPs| == 1 && old(Allocation()) == Ok(a.allowedIPs[0]);
      r := Commit(a, opts);
    }

    /** `RemovePeer`: the device first, then the record; a peer absent from
        either is no error. */
    method RemovePeer(id: string) returns (err: Option<Error>)
      requires Valid()
      modifies this`device, storage`peers
      ensures Valid()
      ensures !IsKey(id) ==> err == Some(InvalidPublicKey)
      ensures IsKey(id) && !deviceUp ==> err == Some(DeviceFailure)
      ensures IsKey(id) && deviceUp ==> err == if storage.healthy then None else Some(StorageFailure)
      ensures device == if IsKey(id) && deviceUp then old(device) - {id} else old(device)
      ensures storage.peers == if IsKey(id) && deviceUp && storage.healthy then old(storage.peers) - {id} else old(storage.peers)
    {
      if !IsKey(id) {
        return Some(InvalidPublicKey);
      }
      var configured := ConfigureDevice([PeerConfig(id, true, false, false, None, [])]);
      if !configured {
        return Some(DeviceFailure);
      }
      var deleted := storage.DeleteMetadata(id);
      if !deleted {
        return Some(StorageFailure);
      }
      return None;
    }
  
    // -------------------------------------------------------------------------
    // Updating and regenerating peers

    /** `UpdatePeer`. The stored fields are written first, and only when one
        of them is given; the allowed IPs are checked afterwards and go only
        to the device, as an update of an existing peer. The answer is the
        peer as `ListPeers` shows it afterwards. */
    method UpdatePeer(id: string, u: PeerUpdate) returns (r: Result<Peer, Error>)
      requires Valid()
      modifies this`device, storage`peers
      ensures Valid()
      ensures !(IsKey(id) && storage.healthy && id in old(storage.peers)) ==>
        r.Err? && device == old(device) && storage.peers == old(storage.peers)
      ensures IsKey(id) && storage.healthy && id in old(storage.peers) ==>
        storage.peers == old(storage.peers)[id := ApplyUpdate(old(storage.peers)[id], u)]
      ensures storage.peers.Keys == old(storage.peers).Keys
      ensures forall k :: k in storage.peers ==> storage.peers[k].allowedIPs == old(storage.peers)[k].allowedIPs
      ensures IsKey(id) && storage.healthy && id in old(storage.peers) &&
              u.allowedIPs.Some? && ParseAllowedIPs(u.allowedIPs.value).Err? ==>
        r == Err(ParseAllowedIPs(u.allowedIPs.value).error) && device == old(device)
      ensures IsKey(id) && storage.healthy && id in old(storage.peers) &&
              u.allowedIPs.Some? && ParseAllowedIPs(u.allowedIPs.value).Ok? ==>
        device == (if deviceUp then ApplyPeer(old(device), PeerConfig(id, false, true, true, None, ParseAllowedIPs(u.allowedIPs.value).value))
                   else old(device))
      ensures u.allowedIPs.None? ==> device == old(device)
      ensures IsKey(id) && storage.healthy && id in old(storage.peers) && deviceUp &&
              (u.allowedIPs.None? || ParseAllowedIPs(u.allowedIPs.value).Ok?) ==>
        (r.Ok? <==> id in old(device))
      ensures !deviceUp ==> r.Err?
      ensures r.Ok? ==> id in device && r.value == View(id)
    {
      var stored := StoreUpdate(id, u);
      if stored.Some? {
        return Err(stored.value);
      }
      var configured := DeviceUpdate(id, u.allowedIPs);
      if configured.Some? {
        return Err(configured.value);
      }
      r := Lookup(id);
    }

    /** The store half of `UpdatePeer`: the key is checked, the record read,
        and written back with the given fields only when one is given. */
    method StoreUpdate(id: string, u: PeerUpdate) returns (err: Option<Error>)
      requires Valid()
      modifies storage`peers
      ensures Valid()
      ensures err.None? <==> IsKey(id) && storage.healthy && id in old(storage.peers)
      ensures err.Some? ==> err.value != DeviceFailure
      ensures storage.peers == if err.None? then old(storage.peers)[id := ApplyUpdate(old(storage.peers)[id], u)] else old(storage.peers)
    {
      if !IsKey(id) {
        return Some(InvalidPublicKey);
      }
      var meta, found := storage.GetMetadata(id);
      if !found {
        return Some(MetadataNotFound);
      }
      if ChangesMetadata(u) {
        var saved := storage.SetMetadata(id, ApplyUpdate(meta, u));
        assert saved;
      } else {
        assert storage.peers[id := ApplyUpdate(meta, u)] == storage.peers;
      }
      return None;
    }

    /** The device half of `UpdatePeer`: the allowed IPs, when given, are
        parsed and set on the peer if the device has it. */
    method DeviceUpdate(id: string, ips: Option<seq<string>>) returns (err: Option<Error>)
      requires Valid() && IsKey(id)
      modifies this`device
      ensures Valid()
      ensures ips.None? ==> err.None? && device == old(device)
      ensures ips.Some? && ParseAllowedIPs(ips.value).Err? ==>
        err == Some(ParseAllowedIPs(ips.value).error) && device == old(device)
      ensures ips.Some? && ParseAllowedIPs(ips.value).Ok? ==>
        err == (if deviceUp then None else Some(DeviceFailure)) &&
        device == if deviceUp then ApplyPeer(old(device), PeerConfig(id, false, true, true, None, ParseAllowedIPs(ips.value).value))
                  else old(device)
    {
      if ips.None? {
        return None;
      }
      var parsed := ParseAll(ips.value);
      if parsed.Err? {
        return Some(parsed.error);
      }
      var configured := ConfigureDevice([PeerConfig(id, false, true, true, None, parsed.value)]);
      if !configured {
        return Some(DeviceFailure);
      }
      return None;
    }

    /** The peer with the given id as `ListPeers` shows it, as `UpdatePeer`
        and `RegeneratePeer` look it up. */
    method Lookup(id: string) returns (r: Result<Peer, Error>)
      requires Valid()
      ensures !deviceUp ==> r == Err(DeviceFailure)
      ensures deviceUp ==> (r.Ok? <==> id in device) && (r.Err? ==> r == Err(PeerNotFound))
      ensures r.Ok? ==> id in device && r.value == View(id)
    {
      var peers := ListPeers();
      if peers.None? {
        return Err(DeviceFailure);
      }
      var p := FindPeer(peers.value, id);
      ListingFinds(peers.value, id);
      if p.None? {
        return Err(PeerNotFound);
      }
      return Ok(p.value);
    }

    /** The entry of a listing with the given id: there is one exactly when
        the device holds that peer. */
    lemma ListingFinds(ps: seq<Peer>, id: string)
      requires IsListing(ps)
      ensures (exists i :: 0 <= i < |ps| && ps[i].id == id) <==> id in device
      ensures forall i :: 0 <= i < |ps| && ps[i].id == id ==> ps[i] == View(id)
    {
      ListsEntries(ps, device.Keys);
      if id in device {
        ListsCovers(ps, device.Keys, id);
      }
    }

    /** The first half of `RegeneratePeer`: the peer is looked up in the
        device listing and removed from the device and the store. */
    method TakeOut(id: string) returns (t: Peer, err: Option<Error>)
      requires Valid()
      modifies this`device, storage`peers
      ensures Valid()
      ensures !deviceUp ==> err == Some(DeviceFailure)
      ensures deviceUp && id !in old(device) ==> err == Some(PeerNotFound)
      ensures deviceUp && id in old(device) ==> err == if storage.healthy then None else Some(StorageFailure)
      ensures device == if deviceUp && id in old(device) then old(device) - {id} else old(device)
      ensures storage.peers == if deviceUp && id in old(device) && storage.healthy then old(storage.peers) - {id}
                               else old(storage.peers)
      ensures err.None? ==> id in old(device) && IsKey(id) && t == old(View(id))
      ensures err.None? ==> (t.allowedIPs == [] <==> old(device[id].allowedIPs) == [])
      ensures err.None? && t.allowedIPs != [] ==> ParseAllowedIPs(t.allowedIPs).Ok?
      ensures storage.CurrentSettings() == old(storage.CurrentSettings())
    {
      var target := Lookup(id);
      if target.Err? {
        return Peer("", "", "", "", [], "", 0, 0, ""), Some(target.error);
      }
      t := target.value;
      FormattedParse(device[id].allowedIPs);
      err := RemovePeer(id);
    }

    /** The second half of `RegeneratePeer`: the record of the removed peer
        is read back (it is gone, so every stored field is empty) and the
        peer is added again under a generated key with the given name and
        allowed IPs. With the device up and the store healthy it succeeds
        exactly when a valid key pair is generated and, for a peer without
        allowed IPs, an address is free; otherwise nothing changes. */
    method AddBack(id: string, name: string, ips: seq<string>, keyGen: Option<KeyPair>, pskGen: Option<string>)
      returns (r: Result<PeerResponse, Error>)
      requires Valid() && deviceUp && storage.healthy && id !in storage.peers
      requires ips != [] ==> ParseAllowedIPs(ips).Ok?
      requires ips != [] || SubnetUsable(vpnSubnet)
      modifies this`device, storage`peers
      ensures Valid()
      ensures r.Ok? <==>
        keyGen.Some? && IsKey(keyGen.value.publicKey) &&
        (ips == [] ==> old(Allocation()).Ok?)
      ensures r.Err? ==> device == old(device) && storage.peers == old(storage.peers)
      ensures r.Ok? ==>
        var k := r.value.peer.publicKey;
        keyGen == Some(KeyPair(k, r.value.privateKey)) && r.value.presharedKey == "" &&
        r.value.peer.name == name && (ips != [] ==> r.value.peer.allowedIPs == ips) &&
        (ips == [] ==> |r.value.peer.allowedIPs| == 1 && old(Allocation()) == Ok(r.value.peer.allowedIPs[0])) &&
        ParseAllowedIPs(r.value.peer.allowedIPs).Ok? &&
        storage.peers == old(storage.peers)[k := PeerMetadata(k, r.value.privateKey, "", name,
                                                              r.value.peer.allowedIPs, "", 0, 0, "")] &&
        device == ApplyPeer(old(device), PeerConfig(k, false, false, true, None, ParseAllowedIPs(r.value.peer.allowedIPs).value))
    {
      var meta, _ := storage.GetMetadata(id);
      var opts := AddPeerOptions(name, "", ips, meta.dns, meta.mtu, meta.persistentKeepalive,
                                 meta.presharedKey != "", meta.interfaceAddress);
      assert meta == EmptyMetadata;
      assert opts == AddPeerOptions(name, "", ips, "", 0, 0, false, "");
      assert Admissible(opts, keyGen, pskGen) <==>
        keyGen.Some? && IsKey(keyGen.value.publicKey) && (ips == [] ==> Allocation().Ok?);
      r := AddPeer(opts, keyGen, pskGen);
    }

    /** `RegeneratePeer`. The peer is looked up in the device listing,
        removed from the device and the store, and added again with a
        generated key, its listed name and its listed allowed IPs. The
        record is read back only after the removal deleted it, so the new
        peer gets none of the old DNS, MTU, keepalive, interface address or
        preshared key. */
    method RegeneratePeer(id: string, keyGen: Option<KeyPair>, pskGen: Option<string>)
      returns (r: Result<PeerResponse, Error>)
      requires Valid() && (SubnetUsable(vpnSubnet) || (id in device && device[id].allowedIPs != []))
      modifies this`device, storage`peers
      ensures Valid()
      ensures !old(deviceUp) ==> r == Err(DeviceFailure) && device == old(device) && storage.peers == old(storage.peers)
      ensures old(deviceUp) && id !in old(device) ==>
        r == Err(PeerNotFound) && device == old(device) && storage.peers == old(storage.peers)
      ensures r.Ok? ==> id in old(device) && IsKey(id)
      ensures r.Ok? <==>
        old(deviceUp) && id in old(device) && old(storage.healthy) &&
        keyGen.Some? && IsKey(keyGen.value.publicKey) &&
        (old(device[id].allowedIPs) == [] ==>
           AllocationFor(vpnSubnet, old(storage.CurrentSettings()).serverAddress, AddressesOf(old(device) - {id})).Ok?)
      ensures old(deviceUp) && id in old(device) && r.Err? ==>
        device == old(device) - {id} &&
        storage.peers == if storage.healthy then old(storage.peers) - {id} else old(storage.peers)
      ensures r.Ok? ==>
        var k := r.value.peer.publicKey;
        keyGen == Some(KeyPair(k, r.value.privateKey)) && r.value.presharedKey == "" &&
        r.value.peer.name == old(NameOf(id)) &&
        (old(device[id].allowedIPs) != [] ==> r.value.peer.allowedIPs == FormatAll(old(device[id].allowedIPs))) &&
        (old(device[id].allowedIPs) == [] ==>
           |r.value.peer.allowedIPs| == 1 &&
           AllocationFor(vpnSubnet, old(storage.CurrentSettings()).serverAddress, AddressesOf(old(device) - {id}))
             == Ok(r.value.peer.allowedIPs[0]))
      ensures r.Ok? ==>
        var k := r.value.peer.publicKey;
        storage.peers == (old(storage.peers) - {id})[k := PeerMetadata(k, r.value.privateKey, "", old(NameOf(id)),
                                                                       r.value.peer.allowedIPs, "", 0, 0, "")]
      ensures r.Ok? ==>
        var k := r.value.peer.publicKey;
        ParseAllowedIPs(r.value.peer.allowedIPs).Ok? &&
        device == ApplyPeer(old(device) - {id}, PeerConfig(k, false, false, true, None, ParseAllowedIPs(r.value.peer.allowedIPs).value))
    {
      var t, err := TakeOut(id);
      if err.Some? {
        return Err(err.value);
      }
      ghost var dev, peers := device, storage.peers;
      assert dev == old(device) - {id} && peers == old(storage.peers) - {id};
      assert t.allowedIPs == [] ==>
        Allocation() == AllocationFor(vpnSubnet, old(storage.CurrentSettings()).serverAddress, AddressesOf(old(device) - {id}));
      r := AddBack(id, t.name, t.allowedIPs, keyGen, pskGen);
      if r.Err? {
        assert device == dev && storage.peers == peers;
      } else {
        assert t.name == old(NameOf(id)) && (t.allowedIPs == [] <==> old(device[id].allowedIPs) == []);
      }
    }

    // -------------------------------------------------------------------------
    // Restoring the device from the store

    /** The stored keys `Sync` restores: those that parse as keys. */
    ghost function SyncKeys(): set<string>
      reads storage
    {
      KeyedPeers(storage.peers)
    }

    /** The device `after` is `before` with every restorable stored peer
        added or given exactly its parseable stored allowed IPs, and every
        other peer untouched. */
    ghost predicate Synced(before: map<string, DevicePeer>, after: map<string, DevicePeer>)
      reads storage
    {
      after.Keys == before.Keys + SyncKeys() &&
      (forall k :: k in SyncKeys() ==> after[k] == Upserted(before, k, ValidAllowedIPs(storage.peers[k].allowedIPs))) &&
      (forall k :: k in before && k !in SyncKeys() ==> after[k] == before[k])
    }

    /** `Sync`: one additive batch for every stored peer under a valid key,
        with the allowed IPs that parse; no device call when there is none. */
    method Sync() returns (err: Option<Error>)
      requires Valid()
      modifies this`device
      ensures Valid()
      ensures !storage.healthy ==> err == Some(StorageFailure) && device == old(device)
      ensures storage.healthy && SyncKeys() == {} ==> err.None? && device == old(device)
      ensures storage.healthy && SyncKeys() != {} && !deviceUp ==> err == Some(DeviceFailure) && device == old(device)
      ensures storage.healthy && SyncKeys() != {} && deviceUp ==> err.None? && Synced(old(device), device)
    {
      var all := storage.GetAllPeers();
      if all.None? {
        return Some(StorageFailure);
      }
      var configs := SyncConfigs(all.value);
      ConfigsEntries(configs, KeyedPeers(all.value), all.value);
      if |configs| == 0 {
        return None;
      }
      var configured := ConfigureDevice(configs);
      if !configured {
        return Some(DeviceFailure);
      }
      SyncedByApply(old(device), configs);
      return None;
    }

    /** Applying the configurations `Sync` builds gives the synced device. */
    lemma SyncedByApply(dev: map<string, DevicePeer>, configs: seq<PeerConfig>)
      requires Configs(configs, SyncKeys(), storage.peers)
      ensures Synced(dev, Apply(dev, configs))
    {
      OverlayOfConfigs(dev, configs, SyncKeys(), storage.peers);
    }

    // -------------------------------------------------------------------------
    // Traffic history

    /** `GetStatsHistory`: the samples, oldest first. */
    method GetStatsHistory() returns (h: seq<StatsHistoryItem>)
      requires Valid()
      ensures h == history && |h| <= MaxHistory
    {
      h := history;
    }

    /** One tick of `collectStats`: a failed reading records nothing;
        otherwise the oldest sample is dropped when the history is full and
        the new one appended. */
    method RecordSample(sample: Option<Stats>, now: int)
      requires Valid()
      modifies this`history
      ensures Valid()
      ensures history == if sample.Some? then Push(old(history), StatsHistoryItem(now, sample.value.totalRX, sample.value.totalTX))
                         else old(history)
    {
      if sample.None? {
        return;
      }
      if |history| >= MaxHistory {
        history := history[1..];
      }
      history := history + [StatsHistoryItem(now, sample.value.totalRX, sample.value.totalTX)];
    }
  }

  /** The first entry of `ps` with the given id. */
  method FindPeer(ps: seq<Peer>, id: string) returns (r: Option<Peer>)
    ensures r.Some? ==> r.value.id == id && exists i :: 0 <= i < |ps| && ps[i] == r.value
    ensures r.None? ==> forall i :: 0 <= i < |ps| ==> ps[i].id != id
  {
    var i := 0;
    while i < |ps|
      invariant 0 <= i <= |ps|
      invariant forall j :: 0 <= j < i ==> ps[j].id != id
    {
      if ps[i].id == id {
        return Some(ps[i]);
      }
      i := i + 1;
    }
    return None;
  }

  /** The stored peers under a valid key. */
  ghost function KeyedPeers(stored: map<string, PeerMetadata>): set<string> {
    set k | k in stored && IsKey(k)
  }

  /** The loop of `Sync` over the stored peers: a configuration for each
      one under a valid key, the others skipped. */
  method SyncConfigs(stored: map<string, PeerMetadata>) returns (configs: seq<PeerConfig>)
    ensures Configs(configs, KeyedPeers(stored), stored)
  {
    configs := [];
    var remaining := stored.Keys;
    ghost var chosen: set<string> := {};
    while remaining != {}
      invariant remaining <= stored.Keys
      invariant forall k :: k in chosen <==> k in stored && k !in remaining && IsKey(k)
      invariant Configs(configs, chosen, stored)
      decreases |remaining|
    {
      var k :| k in remaining;
      remaining := remaining - {k};
      if !IsKey(k) {
        continue;
      }
      var ips := KeepValid(stored[k].allowedIPs);
      ConfigsAppend(configs, chosen, stored, k);
      configs := configs + [PeerConfig(k, false, false, true, None, ips)];
      chosen := chosen + {k};
    }
    assert chosen == KeyedPeers(stored);
  }

  /** `cs` holds exactly one `Sync` configuration per key of `keys`. */
  ghost predicate Configs(cs: seq<PeerConfig>, keys: set<string>, stored: map<string, PeerMetadata>)
    decreases |cs|
  {
    if cs == [] then keys == {}
    else
      var c := cs[|cs| - 1];
      c.publicKey in keys && c.publicKey in stored && c == SyncConfig(c.publicKey, stored[c.publicKey]) &&
      Configs(cs[..|cs| - 1], keys - {c.publicKey}, stored)
  }

  lemma ConfigsAppend(cs: seq<PeerConfig>, keys: set<string>, stored: map<string, PeerMetadata>, k: string)
    requires Configs(cs, keys, stored) && k in stored && k !in keys
    ensures Configs(cs + [SyncConfig(k, stored[k])], keys + {k}, stored)
  {
  }

  /** The configurations of `keys` come one per key, each a valid additive
      replacement under a distinct key. */
  lemma ConfigsEntries(cs: seq<PeerConfig>, keys: set<string>, stored: map<string, PeerMetadata>)
    requires Configs(cs, keys, stored)
    ensures |cs| == |keys|
    ensures forall i :: 0 <= i < |cs| ==>
      cs[i].publicKey in keys && cs[i].publicKey in stored && cs[i] == SyncConfig(cs[i].publicKey, stored[cs[i].publicKey])
    ensures forall i, j :: 0 <= i < j < |cs| ==> cs[i].publicKey != cs[j].publicKey
  {
    ConfigsLength(cs, keys, stored);
    forall i | 0 <= i < |cs|
      ensures cs[i].publicKey in keys && cs[i].publicKey in stored && cs[i] == SyncConfig(cs[i].publicKey, stored[cs[i].publicKey])
    {
      ConfigsAt(cs, keys, stored, i);
    }
    forall i, j | 0 <= i < j < |cs| ensures cs[i].publicKey != cs[j].publicKey {
      ConfigsDistinct(cs, keys, stored, i, j);
    }
  }

  lemma {:induction false} ConfigsLength(cs: seq<PeerConfig>, keys: set<string>, stored: map<string, PeerMetadata>)
    requires Configs(cs, keys, stored)
    ensures |cs| == |keys|
    decreases |cs|
  {
    if cs != [] {
      ConfigsLength(cs[..|cs| - 1], keys - {cs[|cs| - 1].publicKey}, stored);
    }
  }

  lemma {:induction false} ConfigsAt(cs: seq<PeerConfig>, keys: set<string>, stored: map<string, PeerMetadata>, i: nat)
    requires Configs(cs, keys, stored) && i < |cs|
    ensures cs[i].publicKey in keys && cs[i].publicKey in stored && cs[i] == SyncConfig(cs[i].publicKey, stored[cs[i].publicKey])
    decreases |cs|
  {
    var n := |cs| - 1;
    if i < n {
      var init := cs[..n];
      ConfigsAt(init, keys - {cs[n].publicKey}, stored, i);
      assert cs[i] == init[i];
    }
  }

  lemma {:induction false} ConfigsDistinct(cs: seq<PeerConfig>, keys: set<string>, stored: map<string, PeerMetadata>, i: nat, j: nat)
    requires Configs(cs, keys, stored) && i < j < |cs|
    ensures cs[i].publicKey != cs[j].publicKey
    decreases |cs|
  {
    var n := |cs| - 1;
    var init := cs[..n];
    assert cs[i] == init[i];
    if j < n {
      ConfigsDistinct(init, keys - {cs[n].publicKey}, stored, i, j);
      assert cs[j] == init[j];
    } else {
      ConfigsAt(init, keys - {cs[n].publicKey}, stored, i);
    }
  }

  /** Applying the configurations of `keys` upserts exactly those keys, each
      with its stored parseable allowed IPs, and leaves the rest alone. */
  lemma OverlayOfConfigs(dev: map<string, DevicePeer>, cs: seq<PeerConfig>, keys: set<string>, stored: map<string, PeerMetadata>)
    requires Configs(cs, keys, stored)
    ensures var d := Apply(dev, cs);
      d.Keys == dev.Keys + keys &&
      (forall k :: k in keys ==> k in stored && d[k] == Upserted(dev, k, ValidAllowedIPs(stored[k].allowedIPs))) &&
      (forall k :: k in dev && k !in keys ==> d[k] == dev[k])
  {
    ConfigsEntries(cs, keys, stored);
    assert Upserts(cs) && DistinctKeys(cs);
    var d := Apply(dev, cs);
    forall k | k in keys ensures k in stored && k in d && d[k] == Upserted(dev, k, ValidAllowedIPs(stored[k].allowedIPs)) {
      ConfigsCovers(cs, keys, stored, k);
      var i :| 0 <= i < |cs| && cs[i].publicKey == k;
      ApplyOverlayAt(dev, cs, i);
    }
    forall k | k !in keys ensures (k in d <==> k in dev) && (k in dev ==> d[k] == dev[k]) {
      ApplyUntouched(dev, cs, k);
    }
  }

  /** Every key has its configuration. */
  lemma {:induction false} ConfigsCovers(cs: seq<PeerConfig>, keys: set<string>, stored: map<string, PeerMetadata>, k: string)
    requires Configs(cs, keys, stored) && k in keys
    ensures exists i :: 0 <= i < |cs| && cs[i].publicKey == k
    decreases |cs|
  {
    var n := |cs| - 1;
    if cs[n].publicKey != k {
      ConfigsCovers(cs[..n], keys - {cs[n].publicKey}, stored, k);
      var i :| 0 <= i < n && cs[..n][i].publicKey == k;
      assert cs[i].publicKey == k;
    }
  }
}
