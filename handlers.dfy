/** The HTTP handlers of the peer API (`PeerHandler`): request validation and
    the status code chosen for each outcome of the service. A handler is a
    function of the decoded request and of the service operation it would
    call, so "the service is not called" reads as "the reply does not depend
    on the service". A request body that does not decode is `None`. */
module Handlers {
  import opened Wrappers
  import opened Text
  import opened IPv4
  import opened WgTypes

  const StatusOK := 200
  const StatusCreated := 201
  const StatusNoContent := 204
  const StatusBadRequest := 400
  const StatusNotFound := 404
  const StatusInternalServerError := 500

  /** What the handler writes: a fixed error text, the service's own error
      text, or a success status with its JSON (or configuration) body. */
  datatype Reply<T> =
    | Refused(status: nat, message: string)
    | Relayed(status: nat, cause: Error)
    | Replied(status: nat, value: T)

  /** `http.StatusText(500)`, the body of every internal error. */
  const InternalError := "Internal Server Error"
  const MissingId := "Missing peer ID in path"
  const InvalidBody := "Invalid request body"

  /** The body of `POST /peers`. */
  datatype AddPeerRequest = AddPeerRequest(
    name: string,
    publicKey: string,
    allowedIPs: seq<string>,
    dns: string,
    mtu: int,
    persistentKeepalive: int,
    preSharedKey: bool,
    interfaceAddress: string)

  /** The first entry `net.ParseCIDR` rejects. */
  function FirstInvalidCidr(ips: seq<string>): (r: Option<string>)
    ensures r.None? <==> forall i :: 0 <= i < |ips| ==> ParseCIDR(ips[i]).Some?
    ensures r.Some? ==> exists i :: 0 <= i < |ips| && ips[i] == r.value && ParseCIDR(ips[i]).None? &&
                                    forall j :: 0 <= j < i ==> ParseCIDR(ips[j]).Some?
  {
    var k := FirstInvalidIndex(ips);
    if k == |ips| then None else Some(ips[k])
  }

  /** The position of the first entry `net.ParseCIDR` rejects, or the
      length when every entry parses. */
  function FirstInvalidIndex(ips: seq<string>): (k: nat)
    ensures k <= |ips|
    ensures forall j :: 0 <= j < k ==> ParseCIDR(ips[j]).Some?
    ensures k < |ips| ==> ParseCIDR(ips[k]).None?
  {
    FirstInvalidFrom(ips, 0)
  }

  /** The first rejected position at or after `start`. */
  function FirstInvalidFrom(ips: seq<string>, start: nat): (k: nat)
    requires start <= |ips|
    ensures start <= k <= |ips|
    ensures forall j :: start <= j < k ==> ParseCIDR(ips[j]).Some?
    ensures k < |ips| ==> ParseCIDR(ips[k]).None?
    decreases |ips| - start
  {
    if start == |ips| || ParseCIDR(ips[start]).None? then start
    else FirstInvalidFrom(ips, start + 1)
  }

  function InvalidCidrMessage(ip: string): string {
    "Invalid AllowedIP CIDR: " + ip
  }

  /** The validation of `Add`: the options to call the service with, or the
      400 reply. */
  function AddRequestOptions(req: Option<AddPeerRequest>): (r: Result<AddPeerOptions, Reply<PeerResponse>>)
    ensures r.Err? ==> r.error.Refused? && r.error.status == StatusBadRequest
    ensures r.Ok? <==> req.Some? && Trim(req.value.name) != "" && req.value.allowedIPs != [] &&
                       FirstInvalidCidr(req.value.allowedIPs).None?
    ensures r.Ok? ==> var q := req.value;
      r.value == AddPeerOptions(Trim(q.name), q.publicKey, q.allowedIPs, q.dns, q.mtu,
                                q.persistentKeepalive, q.preSharedKey, q.interfaceAddress)
  {
    if req.None? then Err(Refused(StatusBadRequest, InvalidBody))
    else
      var q := req.value;
      var name := Trim(q.name);
      if name == "" then Err(Refused(StatusBadRequest, "Name is required"))
      else if q.allowedIPs == [] then Err(Refused(StatusBadRequest, "At least one AllowedIP is required"))
      else match FirstInvalidCidr(q.allowedIPs)
        case Some(ip) => Err(Refused(StatusBadRequest, InvalidCidrMessage(ip)))
        case None =>
          Ok(AddPeerOptions(name, q.publicKey, q.allowedIPs, q.dns, q.mtu,
                            q.persistentKeepalive, q.preSharedKey, q.interfaceAddress))
  }

  /** `POST /peers`. */
  function Add(req: Option<AddPeerRequest>, service: AddPeerOptions -> Result<PeerResponse, Error>): Reply<PeerResponse> {
    match AddRequestOptions(req)
    case Err(reply) => reply
    case Ok(opts) =>
      match service(opts)
      case Err(_) => Refused(StatusInternalServerError, InternalError)
      case Ok(resp) => Replied(StatusCreated, resp)
  }

  /** An invalid request is answered 400 without reaching the service: a
      name that is blank after trimming, no allowed IPs (so the service's
      automatic address allocation is never used from here) or any entry
      that is not a CIDR, which the reply names. */
  lemma AddRejects(req: AddPeerRequest, service: AddPeerOptions -> Result<PeerResponse, Error>)
    requires Trim(req.name) == "" || req.allowedIPs == [] || FirstInvalidCidr(req.allowedIPs).Some?
    ensures Add(Some(req), service).Refused? && Add(Some(req), service).status == StatusBadRequest
    ensures forall other: AddPeerOptions -> Result<PeerResponse, Error> :: Add(Some(req), other) == Add(Some(req), service)
    ensures Trim(req.name) != "" && req.allowedIPs != [] ==>
      Add(Some(req), service).message == InvalidCidrMessage(FirstInvalidCidr(req.allowedIPs).value)
  {
  }

  /** A valid request reaches the service with the trimmed name and the
      other fields as sent; its success is 201 with the created peer, its
      failure 500. */
  lemma AddCalls(req: AddPeerRequest, service: AddPeerOptions -> Result<PeerResponse, Error>)
    requires Trim(req.name) != "" && req.allowedIPs != [] && FirstInvalidCidr(req.allowedIPs).None?
    ensures var opts := AddPeerOptions(Trim(req.name), req.publicKey, req.allowedIPs, req.dns, req.mtu,
                                       req.persistentKeepalive, req.preSharedKey, req.interfaceAddress);
      var reply := Add(Some(req), service);
      (service(opts).Ok? ==> reply == Replied(StatusCreated, service(opts).value)) &&
      (service(opts).Err? ==> reply == Refused(StatusInternalServerError, InternalError))
  {
  }

  /** `DELETE /peers/{id}`. */
  function Remove(id: string, service: string -> Option<Error>): Reply<()> {
    if id == "" then Refused(StatusBadRequest, MissingId)
    else if service(id).Some? then Refused(StatusInternalServerError, InternalError)
    else Replied(StatusNoContent, ())
  }

  /** `POST /peers/{id}/regenerate`. */
  function Regenerate(id: string, service: string -> Result<PeerResponse, Error>): Reply<PeerResponse> {
    if id == "" then Refused(StatusBadRequest, MissingId)
    else match service(id)
      case Err(_) => Refused(StatusInternalServerError, InternalError)
      case Ok(resp) => Replied(StatusOK, resp)
  }

  /** The validation of `Update`: the allowed IPs are checked only when
      the request carries them. */
  function UpdateRequest(id: string, req: Option<PeerUpdate>): (r: Result<PeerUpdate, Reply<Peer>>)
    ensures r.Err? ==> r.error.Refused? && r.error.status == StatusBadRequest
    ensures r.Ok? <==>
      id != "" && req.Some? && (req.value.allowedIPs.Some? ==> FirstInvalidCidr(req.value.allowedIPs.value).None?)
    ensures r.Ok? ==> r.value == req.value
  {
    if id == "" then Err(Refused(StatusBadRequest, MissingId))
    else if req.None? then Err(Refused(StatusBadRequest, InvalidBody))
    else if req.value.allowedIPs.None? then Ok(req.value)
    else match FirstInvalidCidr(req.value.allowedIPs.value)
      case Some(ip) => Err(Refused(StatusBadRequest, InvalidCidrMessage(ip)))
      case None => Ok(req.value)
  }

  /** `PUT /peers/{id}`. */
  function Update(id: string, req: Option<PeerUpdate>, service: (string, PeerUpdate) -> Result<Peer, Error>): Reply<Peer> {
    match UpdateRequest(id, req)
    case Err(reply) => reply
    case Ok(u) =>
      match service(id, u)
      case Err(_) => Refused(StatusInternalServerError, InternalError)
      case Ok(p) => Replied(StatusOK, p)
  }

  /** An update without allowed IPs is never refused for them, one with an
      invalid entry is refused before the service is called, and a service
      error is 500. */
  lemma UpdateOutcomes(id: string, u: PeerUpdate, service: (string, PeerUpdate) -> Result<Peer, Error>)
    requires id != ""
    ensures u.allowedIPs.None? ==>
      Update(id, Some(u), service) ==
        if service(id, u).Ok? then Replied(StatusOK, service(id, u).value) else Refused(StatusInternalServerError, InternalError)
    ensures u.allowedIPs.Some? && FirstInvalidCidr(u.allowedIPs.value).Some? ==>
      Update(id, Some(u), service) == Refused(StatusBadRequest, InvalidCidrMessage(FirstInvalidCidr(u.allowedIPs.value).value)) &&
      forall other: (string, PeerUpdate) -> Result<Peer, Error> :: Update(id, Some(u), other) == Update(id, Some(u), service)
  {
  }

  /** The download of `GET /peers/{id}/config`. */
  datatype Download = Download(filename: string, config: string)

  /** `GET /peers/{id}/config`: an error of the service is 404 with its own
      text, success the configuration as an attachment named after the id. */
  function GetConfig(id: string, service: string -> Result<string, Error>): Reply<Download> {
    if id == "" then Refused(StatusBadRequest, MissingId)
    else match service(id)
      case Err(e) => Relayed(StatusNotFound, e)
      case Ok(config) => Replied(StatusOK, Download(id + ".conf", config))
  }

  /** `GET /peers/{id}/qr`: the same lookup, then the QR encoder (a
      parameter); its failure is 500. */
  function GetQR(id: string, service: string -> Result<string, Error>, encode: string -> Option<seq<bv8>>): Reply<seq<bv8>> {
    if id == "" then Refused(StatusBadRequest, MissingId)
    else match service(id)
      case Err(e) => Relayed(StatusNotFound, e)
      case Ok(config) =>
        match encode(config)
        case None => Refused(StatusInternalServerError, "Failed to generate QR code")
        case Some(png) => Replied(StatusOK, png)
  }

  /** Every handler keyed by a path id answers a missing id with 400, whatever
      the body and the service would have said. */
  lemma MissingIdRefused(req: Option<PeerUpdate>,
                         remove: string -> Option<Error>,
                         regenerate: string -> Result<PeerResponse, Error>,
                         update: (string, PeerUpdate) -> Result<Peer, Error>,
                         config: string -> Result<string, Error>,
                         encode: string -> Option<seq<bv8>>)
    ensures Remove("", remove) == Refused(StatusBadRequest, MissingId)
    ensures Regenerate("", regenerate) == Refused(StatusBadRequest, MissingId)
    ensures Update("", req, update) == Refused(StatusBadRequest, MissingId)
    ensures GetConfig("", config) == Refused(StatusBadRequest, MissingId)
    ensures GetQR("", config, encode) == Refused(StatusBadRequest, MissingId)
  {
  }

  /** A service error is 500 for removal, regeneration and update, with the
      generic text, but 404 with the service's own error for the
      configuration and its QR code. */
  lemma ServiceErrorStatus(id: string, u: PeerUpdate,
                           remove: string -> Option<Error>,
                           regenerate: string -> Result<PeerResponse, Error>,
                           update: (string, PeerUpdate) -> Result<Peer, Error>,
                           config: string -> Result<string, Error>,
                           encode: string -> Option<seq<bv8>>)
    requires id != ""
    requires u.allowedIPs.None? || FirstInvalidCidr(u.allowedIPs.value).None?
    ensures remove(id).Some? ==> Remove(id, remove) == Refused(StatusInternalServerError, InternalError)
    ensures regenerate(id).Err? ==> Regenerate(id, regenerate) == Refused(StatusInternalServerError, InternalError)
    ensures update(id, u).Err? ==> Update(id, Some(u), update) == Refused(StatusInternalServerError, InternalError)
    ensures config(id).Err? ==> GetConfig(id, config) == Relayed(StatusNotFound, config(id).error)
    ensures config(id).Err? ==> GetQR(id, config, encode) == Relayed(StatusNotFound, config(id).error)
  {
  }

  /** Success: removal is 204 with no body, regeneration and update 200
      with what the service answered, the configuration an attachment named
      after the id, and the QR code the encoder's image. */
  lemma ServiceSuccessStatus(id: string, u: PeerUpdate,
                             remove: string -> Option<Error>,
                             regenerate: string -> Result<PeerResponse, Error>,
                             update: (string, PeerUpdate) -> Result<Peer, Error>,
                             config: string -> Result<string, Error>,
                             encode: string -> Option<seq<bv8>>)
    requires id != ""
    requires u.allowedIPs.None? || FirstInvalidCidr(u.allowedIPs.value).None?
    ensures remove(id).None? ==> Remove(id, remove) == Replied(StatusNoContent, ())
    ensures regenerate(id).Ok? ==> Regenerate(id, regenerate) == Replied(StatusOK, regenerate(id).value)
    ensures update(id, u).Ok? ==> Update(id, Some(u), update) == Replied(StatusOK, update(id, u).value)
    ensures config(id).Ok? ==> GetConfig(id, config) == Replied(StatusOK, Download(id + ".conf", config(id).value))
    ensures config(id).Ok? && encode(config(id).value).None? ==>
      GetQR(id, config, encode) == Refused(StatusInternalServerError, "Failed to generate QR code")
    ensures config(id).Ok? && encode(config(id).value).Some? ==>
      GetQR(id, config, encode) == Replied(StatusOK, encode(config(id).value).value)
  {
  }
}
