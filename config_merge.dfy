/** The real service's client configuration for a stored peer
    (`generateConfigForMetadata`): the peer's own values where it has them,
    the global settings otherwise, rendered by `ConfigGen`. */
module ConfigMerge {
  import opened Text
  import opened WgTypes
  import opened ConfigGen

  /** The routes every client configuration sends through the tunnel. */
  const FullTunnel: seq<string> := ["0.0.0.0/0", "::/0"]

  /** Each part with surrounding white space removed. */
  function TrimAll(parts: seq<string>): (r: seq<string>)
    ensures |r| == |parts|
    ensures forall i :: 0 <= i < |r| ==> r[i] == Trim(parts[i])
  {
    seq(|parts|, i requires 0 <= i < |parts| => Trim(parts[i]))
  }

  /** The DNS servers of a comma-separated list, each trimmed; none for the
      empty text. */
  function DnsServers(dns: string): seq<string> {
    if dns == "" then [] else TrimAll(Split(dns, {','}))
  }

  /** A list of servers without commas and without surrounding white space
      is read back from its comma-joined text. */
  lemma DnsServersJoin(servers: seq<string>)
    requires |servers| >= 1 && servers != [""]
    requires forall i :: 0 <= i < |servers| ==> NoneIn(servers[i], {','})
    requires forall i :: 0 <= i < |servers| ==> servers[i] == [] || (!IsSpace(servers[i][0]) && !IsSpace(servers[i][|servers[i]| - 1]))
    ensures DnsServers(Join(servers, [','])) == servers
  {
    var text := Join(servers, [',']);
    SplitJoin(servers, ',');
    if |servers| == 1 {
      assert text == servers[0] != [];
    } else {
      assert text == servers[0] + [','] + Join(servers[1..], [',']);
      assert text[|servers[0]|] == ',';
    }
    forall i | 0 <= i < |servers| ensures Trim(servers[i]) == servers[i] {
      TrimUntrimmed(servers[i]);
    }
    assert DnsServers(text) == TrimAll(servers);
  }

  /** The values the configuration is rendered from: DNS, MTU and keepalive
      of the peer unless empty or zero, then those of the settings; the
      settings' endpoint unless empty, then the service's; the interface
      address when set, else the peer's allowed IPs; the server's public
      key and the full-tunnel routes. */
  function MergedInfo(meta: PeerMetadata, settings: GlobalSettings, serverPubKey: string, serverEndpoint: string): PeerConfigInfo {
    var dns := if meta.dns == "" then settings.dns else meta.dns;
    var mtu := if meta.mtu == 0 then settings.mtu else meta.mtu;
    var keepalive := if meta.persistentKeepalive == 0 then settings.keepalive else meta.persistentKeepalive;
    var endpoint := if settings.endpoint == "" then serverEndpoint else settings.endpoint;
    var address := if meta.interfaceAddress != "" then [meta.interfaceAddress] else meta.allowedIPs;
    PeerConfigInfo(meta.privateKey, address, DnsServers(dns), mtu, keepalive,
                   serverPubKey, meta.presharedKey, endpoint, FullTunnel)
  }

  /** The configuration text, or the empty text for a peer whose private
      key is not stored. */
  function ConfigForMetadata(meta: PeerMetadata, settings: GlobalSettings, serverPubKey: string, serverEndpoint: string): (s: string)
    ensures s == "" <==> meta.privateKey == ""
  {
    if meta.privateKey == "" then ""
    else GenerateConfigString(MergedInfo(meta, settings, serverPubKey, serverEndpoint))
  }

  /** What the configuration of a peer with a private key shows whatever
      the settings: its own private key, the server's public key, the
      endpoint fallback, the full-tunnel routes and the preshared key exactly
      when the peer has one. */
  lemma ConfigShows(meta: PeerMetadata, settings: GlobalSettings, serverPubKey: string, serverEndpoint: string)
    requires meta.privateKey != ""
    ensures ConfigForMetadata(meta, settings, serverPubKey, serverEndpoint) ==
      Render(Lines(MergedInfo(meta, settings, serverPubKey, serverEndpoint)))
    ensures var lines := Lines(MergedInfo(meta, settings, serverPubKey, serverEndpoint));
      Setting(PrivateKey, meta.privateKey) in lines &&
      Setting(PublicKey, serverPubKey) in lines &&
      Setting(Endpoint, if settings.endpoint == "" then serverEndpoint else settings.endpoint) in lines &&
      Setting(AllowedIPs, "0.0.0.0/0, ::/0") in lines &&
      (Setting(PresharedKey, meta.presharedKey) in lines <==> meta.presharedKey != "")
  {
    var info := MergedInfo(meta, settings, serverPubKey, serverEndpoint);
    GenerateIsRender(info);
    LinesAlways(info);
    PeerOptional(info);
    FullTunnelText();
  }

  lemma FullTunnelText()
    ensures Join(FullTunnel, ", ") == "0.0.0.0/0, ::/0"
  {
  }

  /** The Address line: the interface address when the peer has one,
      otherwise its allowed IPs, and no line for a peer with neither. */
  lemma ConfigAddress(meta: PeerMetadata, settings: GlobalSettings, serverPubKey: string, serverEndpoint: string)
    ensures var lines := Lines(MergedInfo(meta, settings, serverPubKey, serverEndpoint));
      (meta.interfaceAddress != "" ==> Setting(Address, meta.interfaceAddress) in lines) &&
      (meta.interfaceAddress == "" ==>
        (Setting(Address, Join(meta.allowedIPs, ", ")) in lines <==> |meta.allowedIPs| > 0))
  {
    var info := MergedInfo(meta, settings, serverPubKey, serverEndpoint);
    InterfaceOptional(info);
  }

  /** The DNS, MTU and keepalive lines: the peer's value unless empty or
      zero, then the settings' value, and no line when that is empty or not
      positive. */
  lemma ConfigFallbacks(meta: PeerMetadata, settings: GlobalSettings, serverPubKey: string, serverEndpoint: string)
    ensures var lines := Lines(MergedInfo(meta, settings, serverPubKey, serverEndpoint));
      var dns := if meta.dns == "" then settings.dns else meta.dns;
      var mtu := if meta.mtu == 0 then settings.mtu else meta.mtu;
      var keepalive := if meta.persistentKeepalive == 0 then settings.keepalive else meta.persistentKeepalive;
      (Setting(DNS, Join(DnsServers(dns), ", ")) in lines <==> dns != "") &&
      (Setting(MTU, IntToString(mtu)) in lines <==> mtu > 0) &&
      (Setting(PersistentKeepalive, IntToString(keepalive)) in lines <==> keepalive > 0)
  {
    var info := MergedInfo(meta, settings, serverPubKey, serverEndpoint);
    InterfaceOptional(info);
    PeerOptional(info);
  }
}
