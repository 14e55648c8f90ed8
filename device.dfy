/** The kernel WireGuard device as the service drives it through `wgctrl`:
    a table of peers keyed by public key, changed by `ConfigureDevice` with
    a list of peer configurations. Only the parts of the kernel's behaviour
    the service relies on are modelled: removing, creating, updating only
    existing peers, and replacing or extending allowed IPs. */
module Device {
  import opened Wrappers
  import opened IPv4

  /** A character of the standard base64 alphabet. */
  predicate IsBase64Char(c: char) {
    'A' <= c <= 'Z' || 'a' <= c <= 'z' || '0' <= c <= '9' || c == '+' || c == '/'
  }

  /** `wgtypes.ParseKey` succeeds: standard padded base64 of 32 bytes, that
      is 43 alphabet characters and one `=`. */
  predicate IsKey(s: string) {
    |s| == 44 && s[43] == '=' && forall k :: 0 <= k < 43 ==> IsBase64Char(s[k])
  }

  /** What the kernel keeps per peer. */
  datatype DevicePeer = DevicePeer(
    allowedIPs: seq<Cidr>,
    presharedKey: string,
    endpoint: string,
    lastHandshake: string,
    receiveBytes: int,
    transmitBytes: int)

  /** `time.Time{}.String()`, the handshake time of a peer that never
      completed one. */
  const NeverHandshake := "0001-01-01 00:00:00 +0000 UTC"

  /** A peer the kernel has just created. */
  const NewPeer := DevicePeer([], "", "", NeverHandshake, 0, 0)

  /** One entry of `wgtypes.Config.Peers`. */
  datatype PeerConfig = PeerConfig(
    publicKey: string,
    remove: bool,
    updateOnly: bool,
    replaceAllowedIPs: bool,
    presharedKey: Option<string>,
    allowedIPs: seq<Cidr>)

  /** `net.ParseCIDR`'s network: the address masked to its prefix. */
  function Masked(c: Cidr): (m: Cidr)
    requires c.prefix <= 32
    ensures m.prefix == c.prefix && Contains(m.addr, m.prefix, c.addr)
  {
    Cidr(Network(c.addr, c.prefix), c.prefix)
  }

  /** The effect of one peer configuration. */
  function ApplyPeer(dev: map<string, DevicePeer>, pc: PeerConfig): map<string, DevicePeer> {
    if pc.remove then dev - {pc.publicKey}
    else if pc.updateOnly && pc.publicKey !in dev then dev
    else
      var was := if pc.publicKey in dev then dev[pc.publicKey] else NewPeer;
      var ips := if pc.replaceAllowedIPs then pc.allowedIPs else was.allowedIPs + pc.allowedIPs;
      var psk := if pc.presharedKey.Some? then pc.presharedKey.value else was.presharedKey;
      dev[pc.publicKey := was.(allowedIPs := ips, presharedKey := psk)]
  }

  /** `ConfigureDevice` with `ReplacePeers: false`: the configurations in
      order; peers they do not name are untouched. */
  function Apply(dev: map<string, DevicePeer>, configs: seq<PeerConfig>): map<string, DevicePeer>
    decreases |configs|
  {
    if configs == [] then dev else Apply(ApplyPeer(dev, configs[0]), configs[1..])
  }

  /** The peer `key` becomes under a configuration that gives it exactly
      `ips`: its previous state, or a new peer, with those allowed IPs. */
  function Upserted(dev: map<string, DevicePeer>, key: string, ips: seq<Cidr>): DevicePeer {
    (if key in dev then dev[key] else NewPeer).(allowedIPs := ips)
  }

  /** A configuration that adds or replaces a peer: it ends up with exactly
      the given allowed IPs, keeps its live state if it existed, and nothing
      else changes. */
  lemma ApplyUpsert(dev: map<string, DevicePeer>, pc: PeerConfig)
    requires !pc.remove && !pc.updateOnly && pc.replaceAllowedIPs
    ensures var d := ApplyPeer(dev, pc);
      d.Keys == dev.Keys + {pc.publicKey} &&
      d[pc.publicKey].allowedIPs == pc.allowedIPs &&
      (pc.publicKey in dev ==> d[pc.publicKey].endpoint == dev[pc.publicKey].endpoint) &&
      forall k :: k in dev && k != pc.publicKey ==> d[k] == dev[k]
  {
  }

  /** Configurations for distinct peers commute into one overlay: applying
      additive replace-allowed-IPs configurations in sequence gives every
      named peer its own allowed IPs and leaves the others alone, whatever
      the order. */
  lemma ApplyOverlay(dev: map<string, DevicePeer>, configs: seq<PeerConfig>)
    requires Upserts(configs) && DistinctKeys(configs)
    ensures var d := Apply(dev, configs);
      (forall i :: 0 <= i < |configs| ==>
         (configs[i].publicKey in d &&
          d[configs[i].publicKey] == Upserted(dev, configs[i].publicKey, configs[i].allowedIPs))) &&
      (forall k :: k in d <==> k in dev || exists i :: 0 <= i < |configs| && configs[i].publicKey == k) &&
      (forall k :: k in dev && (forall i :: 0 <= i < |configs| ==> configs[i].publicKey != k) ==> d[k] == dev[k])
  {
    var d := Apply(dev, configs);
    forall i | 0 <= i < |configs|
      ensures configs[i].publicKey in d && d[configs[i].publicKey] == Upserted(dev, configs[i].publicKey, configs[i].allowedIPs)
    {
      ApplyOverlayAt(dev, configs, i);
    }
    forall k ensures k in d <==> k in dev || exists i :: 0 <= i < |configs| && configs[i].publicKey == k {
      if exists i :: 0 <= i < |configs| && configs[i].publicKey == k {
        var i :| 0 <= i < |configs| && configs[i].publicKey == k;
        ApplyOverlayAt(dev, configs, i);
      } else {
        ApplyUntouched(dev, configs, k);
      }
    }
    forall k | k in dev && (forall i :: 0 <= i < |configs| ==> configs[i].publicKey != k) ensures d[k] == dev[k] {
      ApplyUntouched(dev, configs, k);
    }
  }

  /** Every configuration is an additive replacement without a preshared key. */
  predicate Upserts(configs: seq<PeerConfig>) {
    forall i :: 0 <= i < |configs| ==>
      !configs[i].remove && !configs[i].updateOnly && configs[i].replaceAllowedIPs && configs[i].presharedKey.None?
  }

  /** No two configurations name the same peer. */
  predicate DistinctKeys(configs: seq<PeerConfig>) {
    forall i, j :: 0 <= i < j < |configs| ==> configs[i].publicKey != configs[j].publicKey
  }

  /** A named peer ends up with its own configuration's allowed IPs. */
  lemma {:induction false} ApplyOverlayAt(dev: map<string, DevicePeer>, configs: seq<PeerConfig>, i: nat)
    requires Upserts(configs) && DistinctKeys(configs) && i < |configs|
    ensures configs[i].publicKey in Apply(dev, configs)
    ensures Apply(dev, configs)[configs[i].publicKey] == Upserted(dev, configs[i].publicKey, configs[i].allowedIPs)
    decreases |configs|
  {
    var c := configs[0];
    var d1 := ApplyPeer(dev, c);
    var rest := configs[1..];
    assert Apply(dev, configs) == Apply(d1, rest);
    assert Upserts(rest) && DistinctKeys(rest) by {
      forall j | 0 <= j < |rest| ensures rest[j] == configs[j + 1] { }
    }
    var key := configs[i].publicKey;
    if i == 0 {
      forall j | 0 <= j < |rest| ensures rest[j].publicKey != key {
        assert rest[j] == configs[j + 1];
      }
      ApplyUntouched(d1, rest, key);
    } else {
      assert rest[i - 1] == configs[i];
      assert c.publicKey != key;
      ApplyOverlayAt(d1, rest, i - 1);
    }
  }

  /** A peer no configuration names is left as it was, present or absent. */
  lemma {:induction false} ApplyUntouched(dev: map<string, DevicePeer>, configs: seq<PeerConfig>, k: string)
    requires Upserts(configs)
    requires forall i :: 0 <= i < |configs| ==> configs[i].publicKey != k
    ensures k in Apply(dev, configs) <==> k in dev
    ensures k in dev ==> Apply(dev, configs)[k] == dev[k]
    decreases |configs|
  {
    if configs != [] {
      var rest := configs[1..];
      forall j | 0 <= j < |rest| ensures rest[j] == configs[j + 1] { }
      assert configs[0].publicKey != k;
      ApplyUntouched(ApplyPeer(dev, configs[0]), rest, k);
    }
  }

  /** What the kernel guarantees of its table: every peer is under a valid
      key and holds IPv4 prefixes only. */
  predicate WellFormed(dev: map<string, DevicePeer>) {
    forall k :: k in dev ==> IsKey(k) && forall c :: c in dev[k].allowedIPs ==> c.prefix <= 32
  }

  /** A configuration the kernel accepts: a valid key and IPv4 prefixes. */
  predicate ValidConfig(pc: PeerConfig) {
    IsKey(pc.publicKey) && forall c :: c in pc.allowedIPs ==> c.prefix <= 32
  }

  /** Applying valid configurations keeps the table well formed. */
  lemma {:induction false} ApplyWellFormed(dev: map<string, DevicePeer>, configs: seq<PeerConfig>)
    requires WellFormed(dev)
    requires forall i :: 0 <= i < |configs| ==> ValidConfig(configs[i])
    ensures WellFormed(Apply(dev, configs))
    decreases |configs|
  {
    if configs != [] {
      var d := ApplyPeer(dev, configs[0]);
      assert WellFormed(d);
      ApplyWellFormed(d, configs[1..]);
    }
  }
}
