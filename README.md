# wg-manager control plane in Dafny

This project models a WireGuard peer manager. The model covers the Go back end and a set of helpers of its Svelte front end.

The back end's real service (`realService`) keeps two stores in step:
- the kernel WireGuard device: a table of peers with their allowed IPs;
- a SQLite metadata store: one record per peer, plus a one-row settings table.

The service performs these operations:
- adds, removes, updates and regenerates peers;
- restores the device from the store (`Sync`);
- hands out the next free address of the VPN subnet (`allocateNextIP`);
- renders client configuration files;
- keeps a rolling history of traffic samples.

Around the service sit:
- the older JSON-file store;
- two in-memory mock services;
- the HTTP handlers' validation and status decisions;
- the CORS middleware;
- the environment overrides of the configuration loader.

The front-end helpers are:
- the CIDR validator;
- the fallback configuration template and the download file name;
- the relative handshake time;
- the peer and notification stores.

## Layout

- `wrappers.dfy`: `Option` and `Result`.
- `text.dfy` (`Text`): white-space trimming, splitting and joining, `strings.Cut`, and decimal digits. It includes the round trips between splitting and joining and between printing and reading numbers.
- `ipv4.dfy` (`IPv4`): IPv4 addresses as naturals below 2^32. It covers:
  - big-endian byte strings;
  - `net.ParseCIDR` and `net.IP.String` for IPv4, with their round trip;
  - netmasks and `IPNet.Contains`;
  - the in-place byte-wise increment (an `array`);
  - the allocator's broadcast test.
- `types.dfy` (`WgTypes`): the records passed between layers (`Peer`, `PeerMetadata`, `GlobalSettings`, `PeerUpdate`, `AddPeerOptions`, `PeerResponse`) and the error kinds.
- `device.dfy` (`Device`): the kernel peer table as a map, `wgtypes.PeerConfig`, and the effect of `ConfigureDevice` with `ReplacePeers: false`.
- `allocator.dfy` (`Allocator`): the set of taken addresses and the scan over the subnet. The scan is proved equal to a reference function, `FirstFree`.
- `config_gen.dfy` (`ConfigGen`): `GenerateConfigString`. It is proved equal to a rendering of a list of lines, and the presence and order of every line are proved on that list.
- `config_merge.dfy` (`ConfigMerge`): `generateConfigForMetadata`, the merge of a peer's values with the global settings.
- `history.dfy` (`History`): the bounded traffic history.
- `sqlite_store.dfy` (`SqliteStore`) and `json_store.dfy` (`JsonStore`): the two metadata stores, as classes over maps.
- `engine.dfy` (`Engine`): the real service as a class holding the device table, its failure flag, the SQLite store and the history.
- `mock_service.dfy` (`MockService`) and `legacy_mock.dfy` (`LegacyMock`): the two mock services, as classes over a `seq`.
- `handlers.dfy` (`Handlers`), `cors.dfy` (`Cors`) and `app_config.dfy` (`AppConfig`): the HTTP layer and the configuration loader.
- `ui_validation.dfy`, `ui_config.dfy`, `ui_formatting.dfy` and `ui_stores.dfy`: the front-end helpers and stores.

### How the environment is represented

The environment enters the model as plain values:
- **Device.** A `map` from public key to the kernel's peer record, plus a flag `deviceUp`. When the flag is false, every call to the device fails.
- **Stores.** The SQLite store has a flag `healthy`; when it is false, every statement fails. The JSON store has a flag `writable` for its file.
- **Generated values.** Key pairs and preshared keys are the generators' outcomes, given as parameters; `None` means a generation that failed. The same goes for the clock (`now`, `diff`) and fresh identifiers (`crypto.randomUUID`).
- **Services called by handlers.** Each handler takes the service operation it calls as a function parameter. "The service is not called" is therefore stated as "the reply is the same for every service".

### Behaviour of the code worth knowing

The model states what the code does in each of these cases:
- **Broadcast test.** The comment at backend/internal/wireguard/service.go:507 says the scan skips the broadcast address (".255 for /24"). The test at service.go:508-514 compares every byte with the complemented mask byte, so it flags only the address 2^(32-p) - 1. In 10.0.0.0/24 the address 10.0.0.255 is therefore handed out (`Allocator.BroadcastHandedOut`).
- **Regenerate.** `RegeneratePeer` reads the stored record at service.go:297, after `RemovePeer` (service.go:291) has deleted it. The new peer therefore gets none of the old DNS, MTU, keepalive, interface address or preshared key.
- **Regenerate failing half-way.** When the re-add fails, the old peer is already gone from the device and, when the store answered, from the store (service.go:291-308).
- **Remove of an unknown peer.** Removing a well-formed key that neither the device nor the store holds succeeds and changes nothing: the device call (service.go:235) and the row deletion (sqlite_storage.go:176-182) both accept an absent key.
- **Update ordering.** `UpdatePeer` writes the stored record (service.go:352-356) before it parses the new allowed IPs (service.go:361-368). A bad CIDR in an update fails after the record has been written.
- **Add after a store failure.** `AddPeer` configures the device (service.go:183) before it stores the record (service.go:200). When the store write fails, the device keeps the new peer and no record exists.
- **Validators.** The front end's pattern (src/lib/utils/validation.ts:8) accepts zero-padded octets and refuses zero-padded prefixes. `net.ParseCIDR`, which the handlers use (backend/internal/handlers/handlers.go:68-73), does the opposite (`UiValidation.PaddedOctetDiffers`, `UiValidation.PaddedPrefixDiffers`).

## Model

| member | source | states |
|---|---|---|
| Text.Trim | backend/internal/handlers/handlers.go:57 | the result is the input without its leading and trailing white space: it is the slice after the leading white space, and everything cut off at either end is white space |
| Text.TrimUntrimmed | backend/internal/middleware/cors.go:26 | text with no white space at either end is left unchanged by trimming |
| Text.Split | backend/internal/wireguard/service.go:566 | a split has at least one part, and no part holds a separator |
| Text.SplitJoin | backend/internal/wireguard/service.go:566 | splitting a joined list gives the list back when no part holds the separator |
| Text.JoinSplit | backend/internal/wireguard/service.go:566 | joining the parts of a split with the separator gives the text back |
| Text.Cut | src/lib/utils/validation.ts:8 | the text is the part before, the separator and the part after; the part before holds no separator; `None` exactly when the separator is absent |
| Text.NatToString | backend/internal/wireguard/config_gen.go:34 | the rendering is all digits, reads back as the number, has no leading zero, and has one, two or three digits below 10, 100 and 1000 |
| Text.NatToStringInjective | backend/internal/wireguard/config_gen.go:34 | different numbers render differently |
| IPv4.ValueInjective | backend/internal/wireguard/service.go:490-491 | two byte strings of the same length and value are equal |
| IPv4.ValueComplement | backend/internal/wireguard/service.go:510 | complementing every byte complements the whole number |
| IPv4.Octets | backend/internal/wireguard/service.go:490-491 | an address has four bytes whose big-endian value is the address |
| IPv4.FromOctets | backend/internal/wireguard/service.go:490-491 | four bytes give the address whose bytes they are |
| IPv4.ParseAddr | backend/internal/wireguard/service.go:481 | an accepted text is the canonical dotted-decimal rendering of its address |
| IPv4.CanonicalDigits | backend/internal/wireguard/service.go:481 | a digit string without a superfluous leading zero is the rendering of its value |
| IPv4.ParsePrefix | backend/internal/wireguard/service.go:481 | an accepted prefix is at most 32 |
| IPv4.ParseCIDR | backend/internal/wireguard/service.go:157 | an accepted CIDR has a prefix of at most 32 and contains a slash |
| IPv4.ParseFormatCidr | backend/internal/wireguard/service.go:521 | a rendered network parses back to itself, so the allocator's `<ip>/32` parses to its address |
| IPv4.ParseFormat | backend/internal/wireguard/service.go:519-520 | dotted decimal parses back to the address it renders |
| IPv4.FormatInjective | backend/internal/wireguard/service.go:519-520 | distinct addresses render differently, so a set of address texts behaves like a set of addresses |
| IPv4.FormatChars | backend/internal/wireguard/service.go:519 | a rendering holds only digits and dots |
| IPv4.Size | backend/internal/wireguard/service.go:503 | a network has between 1 and 2^32 addresses |
| IPv4.SizeAtMostHalf | backend/internal/wireguard/service.go:503 | a network with a nonzero prefix covers at most half the address space |
| IPv4.MaskValue | backend/internal/wireguard/service.go:452 | the netmask plus the network size is 2^32 |
| IPv4.Network | backend/internal/wireguard/service.go:452 | the masked address is a multiple of the network size, at most the address, and within one network size of it |
| IPv4.NetworkIdempotent | backend/internal/wireguard/service.go:452 | masking twice is masking once |
| IPv4.ContainsRange | backend/internal/wireguard/service.go:503 | for an aligned network, `Contains` holds exactly for the addresses from the network address up to one before its end |
| IPv4.AlignedFits | backend/internal/wireguard/service.go:503 | an aligned network ends at or below 2^32 |
| IPv4.IncrementCarry | backend/internal/wireguard/service.go:495-500 | a carry through trailing 255 bytes adds one to the value |
| IPv4.Increment | backend/internal/wireguard/service.go:495-500 | the in-place byte loop adds one to the value, and wraps to zero from the largest value |
| IPv4.CarryStops | backend/internal/wireguard/service.go:497-498 | a carry that stops at a byte below 255 has added exactly one |
| IPv4.CarryGoesOn | backend/internal/wireguard/service.go:496-497 | a byte that wraps to zero extends the zeroed suffix by one byte |
| IPv4.WrapAround | backend/internal/wireguard/service.go:495-500 | when every byte wraps, the value goes from 2^(8n) - 1 to 0 |
| IPv4.FallbackGateway | backend/internal/wireguard/service.go:470-473 | the gateway is the network address plus one, or it wraps within the last byte when that byte is 255 |
| IPv4.ComplementMask | backend/internal/wireguard/service.go:510 | the complemented mask bytes denote 2^(32-p) - 1 |
| IPv4.FlaggedBroadcastIff | backend/internal/wireguard/service.go:508-514 | the test as written flags exactly one address, 2^(32-p) - 1 |
| IPv4.FlaggedOnlyInZeroNetwork | backend/internal/wireguard/service.go:508-514 | inside an aligned network, an address is flagged exactly when the network is 0.0.0.0 and the address is its last one |
| Device.Masked | backend/internal/wireguard/service.go:157-161 | the network `net.ParseCIDR` keeps has the same prefix and contains the written address |
| Device.ApplyOverlay | backend/internal/wireguard/service.go:438-445 | additive configurations for distinct peers add exactly their keys, give each named peer its configured allowed IPs, and leave every other peer unchanged |
| Device.ApplyOverlayAt | backend/internal/wireguard/service.go:438-445 | a named peer ends up with its own configuration's allowed IPs |
| Device.ApplyUntouched | backend/internal/wireguard/service.go:438-445 | a peer that no configuration names keeps its presence and its value |
| Device.ApplyUpsert | backend/internal/wireguard/service.go:164-168 | an additive replacing configuration leaves the peer present, with exactly the given allowed IPs, and no other peer changed |
| Device.ApplyWellFormed | backend/internal/wireguard/service.go:183 | configurations the kernel accepts keep the table well formed: valid keys and IPv4 prefixes |
| Allocator.Gateway | backend/internal/wireguard/service.go:462-474 | the reserved address is the configured server address when it parses, nothing when it does not, and the fallback gateway when none is configured |
| Allocator.ParsedAddressesIff | backend/internal/wireguard/service.go:480-485 | both directions of the inner loop: every address taken from a peer's list comes from an entry that parses to it, and every entry that parses contributes its address |
| Allocator.PeerAddressesIff | backend/internal/wireguard/service.go:479-486 | both directions of the outer loop: every address taken from the listing comes from one allowed IP of one peer that parses to it, and every such address is taken |
| Allocator.CollectTaken | backend/internal/wireguard/service.go:458-487 | the set built is the gateway plus, when the listing succeeded, every peer address; a failed listing adds nothing |
| Allocator.ReserveGateway | backend/internal/wireguard/service.go:462-474 | the first step reserves exactly the gateway |
| Allocator.AddPeers | backend/internal/wireguard/service.go:479-486 | the outer loop adds exactly the peers' addresses |
| Allocator.AddParsed | backend/internal/wireguard/service.go:480-485 | the inner loop adds exactly the addresses of the entries that parse |
| Allocator.FirstFreeSpec | backend/internal/wireguard/service.go:489-525 | a found address is inside the network, after the start, not taken, not flagged, and every address before it is taken or flagged; nothing found means every address from the start to the end of the network is taken or flagged |
| Allocator.FirstFreeUnique | backend/internal/wireguard/service.go:489-525 | a free address preceded only by unusable ones is the answer |
| Allocator.BroadcastHandedOut | backend/internal/wireguard/service.go:507-517 | in 10.0.0.0/24, with .1 to .254 taken, the scan returns 10.0.0.255 |
| Allocator.FirstFreeStep | backend/internal/wireguard/service.go:507-517 | inside the network the reference answer is the address itself when it is free, and otherwise the answer from the next address on |
| Allocator.Scan | backend/internal/wireguard/service.go:490-525 | the in-place loop returns the first free address after the network address, or nothing when it leaves the subnet |
| Allocator.Probe | backend/internal/wireguard/service.go:494-522 | one turn either stops with the answer for the rest of the scan, or moves to the next address with the same answer ahead |
| Allocator.ProbeOutcome | backend/internal/wireguard/service.go:507-522 | an address the broadcast test flags or that is taken is skipped; any other address is the answer |
| Allocator.Advance | backend/internal/wireguard/service.go:494-505 | the counter gains one; nothing exactly when that leaves the subnet |
| Allocator.MatchesComplement | backend/internal/wireguard/service.go:508-514 | the byte loop reports a match exactly when the bytes equal the complemented mask |
| Allocator.ScanSubnet | backend/internal/wireguard/service.go:489-525 | the scan over the masked network of a CIDR returns the reference answer |
| ConfigGen.GenerateIsRender | backend/internal/wireguard/config_gen.go:22-52 | the builder's text is exactly the rendering of the line list, each line ended by a newline |
| ConfigGen.RenderConcat | backend/internal/wireguard/config_gen.go:23-51 | rendering distributes over concatenation of line lists |
| ConfigGen.LinesHave | backend/internal/wireguard/config_gen.go:25-49 | a setting line is present exactly when its key is emitted and its value is the key's value |
| ConfigGen.LinesAlways | backend/internal/wireguard/config_gen.go:36-43 | both headers, the blank line, and the PrivateKey, PublicKey and Endpoint lines are always there, the Endpoint line even when empty |
| ConfigGen.InterfaceOptional | backend/internal/wireguard/config_gen.go:27-35 | the Address and DNS lines, joined with ", ", appear exactly for non-empty lists; the MTU line appears exactly for a positive MTU |
| ConfigGen.PeerOptional | backend/internal/wireguard/config_gen.go:40-49 | the PresharedKey line appears exactly for a non-empty key; the AllowedIPs line exactly for a non-empty list; the PersistentKeepalive line exactly for a positive interval |
| ConfigGen.SectionHas | backend/internal/wireguard/config_gen.go:25-49 | a section holds a setting exactly when the key is one of the section's keys and is emitted with that value |
| ConfigGen.SectionSettings | backend/internal/wireguard/config_gen.go:25-49 | every line of a section is a setting of one of its keys |
| ConfigGen.SectionOrder | backend/internal/wireguard/config_gen.go:25-49 | a section's settings come in the order of its keys |
| ConfigGen.LinesOrder | backend/internal/wireguard/config_gen.go:25-49 | the order is: the Interface header; PrivateKey, Address, DNS, MTU; the blank line; the Peer header; PublicKey, PresharedKey, Endpoint, AllowedIPs, PersistentKeepalive |
| ConfigGen.StartsWithInterface | backend/internal/wireguard/config_gen.go:25-26 | the text starts with "[Interface]\n" followed by the PrivateKey line |
| ConfigMerge.TrimAll | backend/internal/wireguard/service.go:566-568 | every DNS part is trimmed and none is dropped |
| ConfigMerge.DnsServersJoin | backend/internal/wireguard/service.go:564-569 | a list of trimmed servers without commas, written comma-separated, reads back as itself |
| ConfigMerge.ConfigForMetadata | backend/internal/wireguard/service.go:541-545 | the text is empty exactly when the record has no private key |
| ConfigMerge.ConfigShows | backend/internal/wireguard/service.go:576-586 | the configuration shows the private key, the preshared key when set, the server key, the endpoint (the settings' or else the service's) and the full-tunnel routes |
| ConfigMerge.FullTunnelText | backend/internal/wireguard/service.go:585 | the routed prefixes are written "0.0.0.0/0, ::/0" |
| ConfigMerge.ConfigAddress | backend/internal/wireguard/service.go:571-574 | the Address line is the interface address when set, else the allowed IPs, and is absent when both are empty |
| ConfigMerge.ConfigFallbacks | backend/internal/wireguard/service.go:546-558 | DNS, MTU and keepalive are the peer's own values unless empty or zero, and the global settings' values otherwise |
| History.PushKeeps | backend/internal/wireguard/service.go:630-639 | after one append, the history has at most 100 entries, the new sample is last, and the earlier entries are the old ones with the oldest dropped when full |
| History.LastAtMost | backend/internal/wireguard/service.go:631-633 | the window is no longer than the bound or the list |
| History.PushAllWindow | backend/internal/wireguard/service.go:630-639 | after any run of appends, the history is the last 100 of everything recorded |
| SqliteStore.SQLiteStorage.constructor | backend/internal/wireguard/sqlite_storage.go:21-42 | a handle on a database with the given rows, settings row and health |
| SqliteStore.SQLiteStorage.InitSchema | backend/internal/wireguard/sqlite_storage.go:81-96 | the default row ("", "1.1.1.1, 8.8.8.8", 1420, 25, "") is inserted only when row 1 is absent; a failing database changes nothing |
| SqliteStore.SQLiteStorage.GetMetadata | backend/internal/wireguard/sqlite_storage.go:102-134 | the stored record and true exactly when the row exists and the database answers; otherwise the zero record and false |
| SqliteStore.SQLiteStorage.SetMetadata | backend/internal/wireguard/sqlite_storage.go:137-173 | an upsert of every column keyed by the record's own public key, not by the argument |
| SqliteStore.SQLiteStorage.DeleteMetadata | backend/internal/wireguard/sqlite_storage.go:176-182 | only that key's row goes; deleting an absent key succeeds |
| SqliteStore.SQLiteStorage.GetSettings | backend/internal/wireguard/sqlite_storage.go:185-211 | the stored row, or DNS "1.1.1.1, 8.8.8.8" and MTU 1420 with every other field zero or empty when it cannot be read |
| SqliteStore.SQLiteStorage.UpdateSettings | backend/internal/wireguard/sqlite_storage.go:214-235 | all five fields of row 1 are overwritten when the row exists; an update matching no row succeeds and changes nothing |
| SqliteStore.SQLiteStorage.GetAllPeers | backend/internal/wireguard/sqlite_storage.go:238-277 | the loop over the rows yields exactly the stored map, keyed by public key; a failing database yields nothing |
| JsonStore.Storage.constructor | backend/internal/wireguard/storage.go:23-26 | a store with an empty map over the given file |
| JsonStore.Storage.NewStorage | backend/internal/wireguard/storage.go:23-34 | a missing file gives an empty map; a loaded file gives its map; any other load error gives no store |
| JsonStore.Storage.GetMetadata | backend/internal/wireguard/storage.go:65-70 | (m, true) exactly when the key is in the map, and the zero record with false otherwise |
| JsonStore.Storage.Save | backend/internal/wireguard/storage.go:49-62 | the file receives the whole map when it can be written |
| JsonStore.Storage.SetMetadata | backend/internal/wireguard/storage.go:73-79 | the record replaces any previous one under the key; the file is written after |
| JsonStore.Storage.DeleteMetadata | backend/internal/wireguard/storage.go:82-88 | the key is removed, every other key keeps its record, and the file is written after |
| Engine.ParseAllowedIPs | backend/internal/wireguard/service.go:155-162 | a success keeps one IPv4 prefix per entry; a failure is an invalid-allowed-IP error |
| Engine.ParseAllowedIPsValues | backend/internal/wireguard/service.go:156-161 | each entry is kept in order as its masked network |
| Engine.ParseAllowedIPsFirstError | backend/internal/wireguard/service.go:157-159 | a failure names the first entry that does not parse, and every entry before it parses |
| Engine.ParseAllowedIPsComplete | backend/internal/wireguard/service.go:155-162 | a list whose every entry parses parses as a whole |
| Engine.ParseAllowedIPsFailed | backend/internal/wireguard/service.go:155-162 | once a prefix of the list fails, the whole list fails with the same error |
| Engine.ParseAll | backend/internal/wireguard/service.go:155-162 | the loop computes the reference parse of the list |
| Engine.ValidAllowedIPs | backend/internal/wireguard/service.go:417-425 | no more prefixes than entries, all IPv4 |
| Engine.ValidAllowedIPsAgree | backend/internal/wireguard/service.go:417-425 | on a list where every entry parses, dropping the bad entries is the same as parsing |
| Engine.KeepValid | backend/internal/wireguard/service.go:417-425 | the loop keeps the masked prefixes of the entries that parse, in order, and skips the others |
| Engine.FormatAll | backend/internal/wireguard/service.go:88-91 | one rendering per prefix, in order |
| Engine.FormatEach | backend/internal/wireguard/service.go:88-91 | the loop renders every prefix |
| Engine.FormattedParse | backend/internal/wireguard/service.go:155-162 | the allowed IPs a listing shows for a device peer always parse back as a list |
| Engine.AllocationParses | backend/internal/wireguard/service.go:155-162 | an address the allocator hands out always parses as a one-entry list of allowed IPs |
| Engine.FormattedAddresses | backend/internal/wireguard/service.go:481 | reading the listed prefixes back gives exactly the device's prefix addresses |
| Engine.ApplyUpdate | backend/internal/wireguard/service.go:329-350 | only the fields given in the update are overwritten; keys and allowed IPs are kept; an update with no metadata field leaves the record as it is |
| Engine.ChooseKeys | backend/internal/wireguard/service.go:119-143 | the given public key, or a generated pair when none is given; a generated preshared key only when asked for; the key must parse; the errors are exactly a failed generation and a bad key |
| Engine.Service.constructor | backend/internal/wireguard/service.go:49-58 | a service over the given store and device with an empty history |
| Engine.Service.ConfigureDevice | backend/internal/wireguard/service.go:183-185 | a working device applies all the configurations; a failing one changes nothing |
| Engine.Service.ListsEntries | backend/internal/wireguard/service.go:86-113 | a listing has one entry per device peer, each showing that peer |
| Engine.Service.ListsCovers | backend/internal/wireguard/service.go:87-113 | every device peer has its entry |
| Engine.Service.ShowPeer | backend/internal/wireguard/service.go:88-112 | a device peer shown with its rendered prefixes and stored name, the name empty when the store has none or fails |
| Engine.Service.ListPeers | backend/internal/wireguard/service.go:80-115 | nothing exactly when the device fails; otherwise every device peer exactly once |
| Engine.Service.ListingAddresses | backend/internal/wireguard/service.go:477-487 | the addresses the allocator reads from a listing are exactly the device's prefix addresses |
| Engine.Service.ListingFinds | backend/internal/wireguard/service.go:391-395 | a listing has an entry with an id exactly when the device has that peer, and that entry is its view |
| Engine.Service.CollectUsed | backend/internal/wireguard/service.go:457-487 | the taken set is the gateway plus, when the device answers, the device's addresses |
| Engine.Service.AllocateNextIP | backend/internal/wireguard/service.go:451-526 | the answer is the first free address after the network address as "<ip>/32", the exhaustion error, or the invalid-subnet error |
| Engine.Service.ConfigFor | backend/internal/wireguard/service.go:541-587 | the text is the merge of the record with the current settings |
| Engine.Service.GetPeerConfig | backend/internal/wireguard/service.go:529-539 | a configuration exactly for a stored record with a private key; not found for a missing record; config unavailable for an empty private key |
| Engine.Service.GetPeerMetadata | backend/internal/wireguard/service.go:590-592 | the stored record as the store answers it |
| Engine.Service.ChooseIPs | backend/internal/wireguard/service.go:145-152 | the given IPs, or the one allocated address, or the allocator's error |
| Engine.Service.Admit | backend/internal/wireguard/service.go:118-176 | succeeds exactly when a key is given or generated and is valid, the preshared key asked for is generated and is empty or valid, the given IPs all parse, and an address is free when none are given; on success the keys, the IPs (the allocated one when none are given) and the additive configuration built from them, before any mutation; a bad CIDR always fails |
| Engine.Service.Commit | backend/internal/wireguard/service.go:183-216 | the device is configured first and the record stored second; a device failure leaves both unchanged; a store failure leaves the device configured with the new peer and the store without its record |
| Engine.Service.AddPeer | backend/internal/wireguard/service.go:118-217 | succeeds exactly when the checks of `Admit` pass in the starting state, the device answers and the store is healthy; any failure before the store write leaves device and store unchanged; a store failure leaves the device configured with the peer these options and generator outcomes determine, and no record; on success the device has the new peer, the store has the full record and the reply holds its configuration |
| Engine.Service.RemovePeer | backend/internal/wireguard/service.go:220-244 | a bad key fails first; the device removal comes before the record deletion, which runs only after it succeeds; an absent peer is no error |
| Engine.Service.StoreUpdate | backend/internal/wireguard/service.go:318-356 | the key is checked and the record read; a missing record fails without writes; otherwise the merged record is stored |
| Engine.Service.DeviceUpdate | backend/internal/wireguard/service.go:358-383 | no allowed IPs: no device call; a bad CIDR fails with no device call; otherwise an update-only replacing configuration |
| Engine.Service.Lookup | backend/internal/wireguard/service.go:385-397 | the peer as listed when the device has it; not found otherwise; device failure when the device fails |
| Engine.Service.UpdatePeer | backend/internal/wireguard/service.go:317-398 | the metadata is written before the allowed IPs are checked; allowed IPs go only to the device and never into the store; no record means an error with no writes |
| Engine.Service.TakeOut | backend/internal/wireguard/service.go:272-293 | the peer is found in the listing and removed from device and store; the errors of the listing, the lookup and the removal, each with its exact effect; the peer taken out is as it was listed, and its listed IPs parse |
| Engine.Service.AddBack | backend/internal/wireguard/service.go:295-313 | with device up and store healthy, the re-add succeeds exactly when a valid key pair is generated and, for a peer without IPs, an address is free; a failure changes nothing; success stores an empty record under the new key and adds it to the device with the given IPs, or, when none are given, with the one address the allocator answers in the starting state |
| Engine.Service.RegeneratePeer | backend/internal/wireguard/service.go:271-314 | succeeds exactly when the device answers and holds the peer, the store is healthy, a valid key pair is generated and, for a peer without allowed IPs, the allocator run over the device without the old peer finds an address; such a peer gets exactly that one address, and a peer with allowed IPs keeps its listed ones; an unknown peer fails before any change; otherwise the old key leaves device and store, and the new generated key is added with the listed name and allowed IPs and with no DNS, MTU, keepalive, interface address or preshared key; a failure after the removal leaves the old peer gone from the device and, when the store answered, from the store |
| Engine.Service.Sync | backend/internal/wireguard/service.go:401-448 | a store failure changes nothing; no restorable key means no device call; otherwise one additive batch upserts every validly keyed stored peer with its parseable IPs and leaves the others alone |
| Engine.Service.SyncedByApply | backend/internal/wireguard/service.go:438-445 | applying the batch gives exactly the synced device |
| Engine.Service.GetStatsHistory | backend/internal/wireguard/service.go:595-603 | the samples as recorded, at most 100 |
| Engine.Service.RecordSample | backend/internal/wireguard/service.go:623-639 | a failed reading records nothing; otherwise one bounded append |
| Engine.FindPeer | backend/internal/wireguard/service.go:278-284 | the peer found has the id and is in the list; nothing found means no entry has the id |
| Engine.SyncConfigs | backend/internal/wireguard/service.go:409-432 | the loop builds exactly one configuration per stored peer under a valid key |
| Engine.ConfigsEntries | backend/internal/wireguard/service.go:409-432 | the batch has one configuration per key, each an additive replacement with the stored parseable IPs, no two for the same key |
| Engine.OverlayOfConfigs | backend/internal/wireguard/service.go:438-445 | the batch adds exactly its keys, gives each its stored IPs and leaves other peers unchanged |
| MockService.FirstWithId | backend/internal/wireguard/wireguard.go:155-164 | the first position holding the id, or none when no peer has it |
| MockService.Removed | backend/internal/wireguard/wireguard.go:155-164 | the first peer with the id is cut out and the others keep their order; without one the list is unchanged |
| MockService.Regenerated | backend/internal/wireguard/wireguard.go:177-179 | "-new" is appended to the public key, which becomes the id; name and allowed IPs are kept |
| MockService.MockUpdated | backend/internal/wireguard/wireguard.go:192-210 | only the given name and allowed IPs change |
| MockService.AddAfterRemoveReusesId | backend/internal/wireguard/wireguard.go:133-145 | ids come from the list length, so after a removal an add hands out an id already in use |
| MockService.MockIdInjective | backend/internal/wireguard/wireguard.go:137 | different lengths give different ids |
| MockService.MockService.constructor | backend/internal/wireguard/wireguard.go:92-117 | a new mock holds exactly the two fixed peers |
| MockService.MockService.ListPeers | backend/internal/wireguard/wireguard.go:120-128 | fails exactly when some peer is named "force-list-error"; otherwise the list |
| MockService.MockService.AddPeer | backend/internal/wireguard/wireguard.go:131-150 | "force-add-error" fails with no change; otherwise the peer is appended with id "mock-peer-<len+1>" and an empty key replaced by "MOCK_PUBKEY_"+id |
| MockService.MockService.RemovePeer | backend/internal/wireguard/wireguard.go:153-165 | "force-error" fails; an absent id fails with no change; otherwise the first match is removed, order kept |
| MockService.MockService.RegeneratePeer | backend/internal/wireguard/wireguard.go:168-187 | the first match is regenerated in place and nothing else changes; the errors are as for removal |
| MockService.MockService.UpdatePeer | backend/internal/wireguard/wireguard.go:190-211 | the given name and allowed IPs are applied in place; the new name "force-error" fails with no change; an unknown id fails |
| MockService.MockService.GetStats | backend/internal/wireguard/wireguard.go:265-281 | fails exactly when some peer is named "force-stats-error"; otherwise the peer count is the list length |
| MockService.MockService.GetPeerMetadata | backend/internal/wireguard/wireguard.go:226-234 | the name, public key and allowed IPs of the first match, or the zero record and false |
| LegacyMock.FirstIndex | backend/wireguard/wireguard.go:65-70 | the first position holding the id, or none |
| LegacyMock.LegacyStore.constructor | backend/wireguard/wireguard.go:74 | the package list starts empty |
| LegacyMock.LegacyStore.ListPeers | backend/wireguard/wireguard.go:34-50 | always the same two fixed peers, whatever was added |
| LegacyMock.LegacyStore.AddPeer | backend/wireguard/wireguard.go:53-60 | the peer with id "mock-peer-<len+1>" and its other fields unchanged, appended |
| LegacyMock.LegacyStore.RemovePeer | backend/wireguard/wireguard.go:63-72 | the first match is removed with the order kept; an absent id fails with no change |
| Handlers.FirstInvalidCidr | backend/internal/handlers/handlers.go:68-73 | nothing exactly when every entry parses; otherwise the first entry that does not |
| Handlers.FirstInvalidIndex | backend/internal/handlers/handlers.go:68-73 | every entry before the position parses, and the one at it does not |
| Handlers.AddRequestOptions | backend/internal/handlers/handlers.go:48-84 | options exactly for a decoded body with a non-blank name, at least one allowed IP and all of them CIDRs; the name is trimmed; every refusal is 400 |
| Handlers.AddRejects | backend/internal/handlers/handlers.go:57-73 | a blank name, no allowed IPs or a bad CIDR gives 400 whatever the service would do, naming the bad CIDR |
| Handlers.AddCalls | backend/internal/handlers/handlers.go:75-97 | a valid request reaches the service with the trimmed name; 201 on success, 500 on error |
| Handlers.UpdateRequest | backend/internal/handlers/handlers.go:146-168 | the allowed IPs are checked only when given; a missing id or an undecodable body is 400 |
| Handlers.UpdateOutcomes | backend/internal/handlers/handlers.go:161-189 | no allowed IPs: the service decides, 200 or 500; a bad CIDR: 400 whatever the service would do |
| Handlers.MissingIdRefused | backend/internal/handlers/handlers.go:103-106 | Remove, Regenerate, Update, GetConfig and GetQR answer 400 to an empty id |
| Handlers.ServiceErrorStatus | backend/internal/handlers/handlers.go:108-114 | a service error is 500 for Remove, Regenerate and Update, and 404 with the service's own error for GetConfig and GetQR |
| Handlers.ServiceSuccessStatus | backend/internal/handlers/handlers.go:206-248 | success is 204 for Remove and 200 otherwise; the configuration is an attachment named "<id>.conf"; a failed QR encoding is 500 |
| Cors.AllowedOrigin | backend/internal/middleware/cors.go:13-32 | the answer is the origin or empty; it is the origin exactly when an origin was sent and either no list is configured or a trimmed entry equals it |
| Cors.GetAllowedOrigin | backend/internal/middleware/cors.go:13-32 | the early-return loop over the entries computes the reference answer |
| Cors.CorsHeaders | backend/internal/middleware/cors.go:37-43 | Allow-Origin and "Vary: Origin" only for a non-empty origin; Allow-Methods and Allow-Headers always; other headers untouched |
| Cors.ServeCors | backend/internal/middleware/cors.go:36-50 | OPTIONS is answered 200 without calling the next handler; any other method calls it exactly once |
| AppConfig.Override | backend/internal/config/config.go:31-48 | a non-empty variable replaces the file's value, and an empty or unset one keeps it |
| AppConfig.LoadConfig | backend/internal/config/config.go:19-51 | a file error is returned as it is; otherwise each field is overridden only by its own variable |
| UiValidation.ValidateFormatted | src/lib/utils/validation.ts:15-17 | every CIDR the back end renders passes the pattern |
| UiValidation.PaddedOctetDiffers | src/lib/utils/validation.ts:7-8 | "10.0.0.01/32" passes the pattern and is refused by the back end |
| UiValidation.PaddedPrefixDiffers | src/lib/utils/validation.ts:7-8 | "10.0.0.1/08" is refused by the pattern and accepted by the back end |
| UiValidation.Verdicts | src/lib/utils/validation.ts:15-17 | on a text cut into its fields, each validator is its per-field test |
| UiValidation.NonEmptyTrimmedMembers | src/lib/utils/validation.ts:25-28 | the entries are exactly the non-empty trimmed parts |
| UiValidation.NonEmptyTrimmedAppend | src/lib/utils/validation.ts:25-28 | the entries keep the order of the parts: trimming and dropping distribute over concatenation |
| UiValidation.Rejected | src/lib/utils/validation.ts:34 | exactly the invalid entries |
| UiValidation.RejectedAppend | src/lib/utils/validation.ts:34-41 | the invalid entries keep their input order: selecting them distributes over concatenation |
| UiValidation.ValidateCidrList | src/lib/utils/validation.ts:24-44 | valid exactly when there is an entry and all pass; no entries gives the required message; otherwise the invalid entries joined with ", " |
| UiConfig.GenerateWireGuardConfig | src/lib/utils/config.ts:10-33 | the server's text when it is non-empty; otherwise the fallback template |
| UiConfig.FallbackReadsBack | src/lib/utils/config.ts:21-30 | the fallback text splits back into the template's ten lines when no value holds a line break |
| UiConfig.FallbackPrivateKey | src/lib/utils/config.ts:22 | the placeholder shows exactly when no private key was sent (or it is spelled like the placeholder) |
| UiConfig.SanitizeFilename | src/lib/utils/config.ts:42 | the name's length plus 5, ".conf" at the end, allowed characters kept and every other character replaced by "_" |
| UiConfig.SanitizeIdempotent | src/lib/utils/config.ts:42 | sanitising the stem of a sanitised name changes nothing |
| UiFormatting.AgoReadsBack | src/lib/utils/formatting.ts:37-56 | the text is the count's digits, the unit, an "s" exactly when the count is not 1, and "ago" |
| UiFormatting.HandshakeBuckets | src/lib/utils/formatting.ts:36-56 | the largest unit that fits: seconds 0-59, minutes 1-59, hours 1-23, then days |
| UiFormatting.HandshakeSpecialCases | src/lib/utils/formatting.ts:28-30 | "Never" for "0" or empty; "NaN days ago" for a date that does not parse |
| UiFormatting.FutureHandshake | src/lib/utils/formatting.ts:37-40 | a handshake up to a second in the future reads "-1 seconds ago" |
| UiFormatting.FormatDate | src/lib/utils/formatting.ts:64-71 | "N/A" for an empty or "0" date, else the locale rendering |
| UiStores.EffectiveDuration | src/lib/stores/notifications.ts:27 | the given duration, or 3000 when none is given |
| UiStores.WithoutIdMembers | src/lib/stores/notifications.ts:38-40 | exactly the entries with other ids remain; removing an absent id changes nothing |
| UiStores.WithoutIdAppend | src/lib/stores/notifications.ts:38-40 | the filter keeps order: it distributes over concatenation |
| UiStores.WithoutIdIdempotent | src/lib/stores/notifications.ts:38-40 | removing twice is removing once |
| UiStores.NotificationStore.Add | src/lib/stores/notifications.ts:17-33 | exactly one notification appended and earlier ones untouched; a removal is scheduled only for a positive duration |
| UiStores.NotificationStore.Remove | src/lib/stores/notifications.ts:38-40 | every entry with the id dropped, order kept |
| UiStores.NotificationStore.Fire | src/lib/stores/notifications.ts:29-31 | a due timer removes its notification |
| UiStores.AddThenRemove | src/lib/stores/notifications.ts:17-40 | adding a notification with a fresh id and removing it gives the list back |
| UiStores.DeriveStatus | src/lib/stores/peers.ts:13-23 | online exactly for a real handshake at most 120000 ms old, the boundary included |
| UiStores.WithStatus | src/lib/stores/peers.ts:52-55 | same length and order, each peer with its derived status |
| UiStores.WithoutPeer | src/lib/stores/peers.ts:112 | exactly the peers with other ids remain |
| UiStores.WithoutPeerAppend | src/lib/stores/peers.ts:112 | the remaining peers keep their order: dropping distributes over concatenation |
| UiStores.PeersStore.Load | src/lib/stores/peers.ts:38-58 | an error adds its notice, schedules its dismissal after 5000 ms and leaves the list; data replaces the list with derived statuses and notifies nothing |
| UiStores.PeersStore.Remove | src/lib/stores/peers.ts:93-114 | an error adds its notice with a 5000 ms dismissal, answers false and leaves the list; success adds its notice with a 3000 ms dismissal, drops the peer's entries and answers true |

## Left out

- Engine: `wgtypes.ParseKey` decodes base64 leniently. It also accepts a key text whose last character has non-zero padding bits, or one with embedded line breaks. The kernel keys the peer by its 32 bytes and lists it under the canonical text, while the store keeps the text as given. The model keys the device and the store by the text (`IsKey` checks only the shape), so it does not capture a record whose key never equals the listed id.
- JsonStore: the legacy JSON store's record type is `PeerMetadata { Name string }` (backend/internal/wireguard/storage.go:10-13). The model uses the wider nine-field record of the SQLite store for both stores, so it does not capture that the source's JSON file holds only the name of each peer.
- JsonStore.Storage.Save: `writable` stands for `os.Create` succeeding. `os.Create` truncates the file before the map is encoded, so a write error after that leaves an empty or partial file; the model does not capture that I/O failure and keeps the old file only when the file cannot be created.
- UiConfig.SanitizeFilename: the model works on Unicode code points. The source's pattern has no `u` flag and replaces each UTF-16 code unit, so a character outside the Basic Multilingual Plane becomes two "_" in the source and one in the model. The length statement holds in code points only.
- IPv6: the IPv6 forms of `net.ParseCIDR` and of the formatting are not modelled, so an IPv6 CIDR reads as invalid text.
- White space: it is the ASCII white space. Unicode white space in `strings.TrimSpace` and `String.prototype.trim` is not modelled.
- Allocator.Scan, Engine.Service.AllocateNextIP, Engine.Service.ChooseIPs, Engine.Service.Admit, Engine.Service.AddPeer, Engine.Service.AddBack, Engine.Service.RegeneratePeer, Allocator.ScanSubnet, Allocator.Probe and Allocator.Advance require a VPN subnet that does not parse or has a prefix of at least 1. With prefix 0 the source's scan wraps around the whole address space, and the proof of termination relies on that bound.
- Engine: the kernel's own rule for an allowed IP claimed by two peers (it moves to the last) is not modelled. Each peer keeps the prefixes configured for it.
- Engine.Service.ListPeers: the listing is stated up to order. The kernel's iteration order is not modelled.
- Engine: one health flag stands for every device call and one for every statement of the store. Intermittent failures between two calls of one operation are not modelled.
- Engine: the real `GetStats` (summing the peers' counters read from the kernel) is not modelled. `RecordSample` takes the reading as its input.
- Engine: opening the client in `NewRealService`, `Close`, the `collectStats` goroutine, its ticker and the mutexes are not modelled. The history is one append step.
- Engine.Service.constructor: the startup `Sync` of `NewRealService` is a separate call of `Sync`, whose failure the source only logs.
- Engine: key generation is modelled by its outcome only. `IsKey` stands for `wgtypes.ParseKey`: 44 characters of padded standard base64.
- Engine: `GetSettings` and `UpdateSettings` of the service pass straight to the store and are modelled there.
- MockService: `Sync`, `GetPeerConfig`, `GetStatsHistory`, `GetSettings` and `UpdateSettings` of the mock return constants and are not modelled.
- MockService: the slice the mock's `ListPeers` returns shares storage with the mock's list in Go. The model returns a value, so that aliasing is not captured.
- Handlers: `List`, `Stats`, `GetHistory`, `GetSettings` and `UpdateSettings` only relay the service. They are not modelled, and neither are the JSON encoding and the logging middleware.
- Handlers: the QR encoder is a parameter. The PNG it produces is not modelled.
- JSON encoding of the allowed IPs in the SQLite store and of the JSON store's file: the stored values are the records themselves.
- UiFormatting: `formatBytes` uses floating point and is not modelled. The date parsing and `toLocaleString` are inputs.
- UiStores: the peers store's `add` is not modelled. Of that store, only `load`, `remove` and the status derivation are modelled.
- UiConfig: the browser download (Blob, DOM) is not modelled. Only the file name is.
- UiStores.NotificationStore.Add: `setTimeout` is recorded as a pending timer. The event loop firing it is `Fire`.
