/** The records the back end passes between its layers: the peer as the API
    shows it, the stored per-peer metadata, the global settings singleton,
    the option records of the service calls, the traffic samples and the
    error kinds the service reports. Go's `int`/`int64` become `int`. */
module WgTypes {
  import opened Wrappers

  /** A peer as `ListPeers` reports it. */
  datatype Peer = Peer(
    id: string,
    publicKey: string,
    name: string,
    endpoint: string,
    allowedIPs: seq<string>,
    lastHandshake: string,
    receiveBytes: int,
    transmitBytes: int,
    interfaceAddress: string)

  /** The per-peer record the stores keep, one column per field of the
      `peers` table. */
  datatype PeerMetadata = PeerMetadata(
    publicKey: string,
    privateKey: string,
    presharedKey: string,
    name: string,
    allowedIPs: seq<string>,
    dns: string,
    mtu: int,
    persistentKeepalive: int,
    interfaceAddress: string)

  /** Go's zero value of `PeerMetadata`. */
  const EmptyMetadata := PeerMetadata("", "", "", "", [], "", 0, 0, "")

  /** The single row of the `settings` table. */
  datatype GlobalSettings = GlobalSettings(
    serverAddress: string,
    dns: string,
    mtu: int,
    keepalive: int,
    endpoint: string)

  /** Optional changes of `UpdatePeer`; `None` is Go's nil pointer. */
  datatype PeerUpdate = PeerUpdate(
    name: Option<string>,
    allowedIPs: Option<seq<string>>,
    dns: Option<string>,
    mtu: Option<int>,
    persistentKeepalive: Option<int>,
    interfaceAddress: Option<string>)

  /** The request of `AddPeer`. */
  datatype AddPeerOptions = AddPeerOptions(
    name: string,
    publicKey: string,
    allowedIPs: seq<string>,
    dns: string,
    mtu: int,
    persistentKeepalive: int,
    preSharedKey: bool,
    interfaceAddress: string)

  /** A peer with the secrets and client configuration created for it. */
  datatype PeerResponse = PeerResponse(
    peer: Peer,
    config: string,
    privateKey: string,
    presharedKey: string)

  datatype Stats = Stats(
    interfaceName: string,
    publicKey: string,
    listenPort: int,
    subnet: string,
    peerCount: int,
    totalRX: int,
    totalTX: int)

  datatype StatsHistoryItem = StatsHistoryItem(timestamp: int, totalRX: int, totalTX: int)

  /** A key pair as the key generator returns it. */
  datatype KeyPair = KeyPair(publicKey: string, privateKey: string)

  /** Why a service call failed; the source wraps these in `fmt.Errorf`. */
  datatype Error =
    | KeyGenerationFailed
    | InvalidPublicKey
    | InvalidPresharedKey
    | InvalidAllowedIP(ip: string)
    | InvalidSubnet
    | SubnetExhausted
    | DeviceFailure
    | StorageFailure
    | PeerNotFound
    | MetadataNotFound
    | ConfigUnavailable
    | Forced
}
