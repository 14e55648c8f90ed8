/** The CORS middleware: which origin a response admits, the headers it
    sets, and whether the request goes on to the wrapped handler. The
    environment variable `CORS_ALLOWED_ORIGINS` is a parameter. */
module Cors {
  import opened Wrappers
  import opened Text

  const AllowOrigin := "Access-Control-Allow-Origin"
  const AllowMethods := "Access-Control-Allow-Methods"
  const AllowHeaders := "Access-Control-Allow-Headers"
  const Vary := "Vary"
  const Methods := "GET, POST, DELETE, OPTIONS"
  const RequestHeaders := "Content-Type, Authorization"

  /** Some comma-separated entry of the configured list, once trimmed, is
      the origin. */
  ghost predicate Listed(origin: string, allowed: string) {
    exists i :: 0 <= i < |Split(allowed, {','})| && Trim(Split(allowed, {','})[i]) == origin
  }

  /** The origin the response admits: none without an Origin header; the
      request's own origin when no list is configured; otherwise the origin
      exactly when some comma-separated entry equals it once trimmed. */
  ghost function AllowedOrigin(origin: string, allowed: string): (r: string)
    ensures r == [] || r == origin
    ensures origin != [] ==> (r == origin <==> allowed == [] || Listed(origin, allowed))
    ensures origin == [] ==> r == []
  {
    if origin == [] || (allowed != [] && !Listed(origin, allowed)) then [] else origin
  }

  /** `getAllowedOrigin`, scanning the configured entries in order. */
  method GetAllowedOrigin(origin: string, allowed: string) returns (r: string)
    ensures r == AllowedOrigin(origin, allowed)
  {
    if origin == "" {
      return "";
    }
    if allowed == "" {
      return origin;
    }
    var entries := Split(allowed, {','});
    for i := 0 to |entries|
      invariant forall j :: 0 <= j < i ==> Trim(entries[j]) != origin
    {
      if Trim(entries[i]) == origin {
        return origin;
      }
    }
    return "";
  }

  /** `Header.Set`: the key holds exactly the one value. */
  function Set(h: map<string, seq<string>>, key: string, value: string): map<string, seq<string>> {
    h[key := [value]]
  }

  /** `Header.Add`: the value appended to those the key already holds. */
  function Add(h: map<string, seq<string>>, key: string, value: string): map<string, seq<string>> {
    h[key := (if key in h then h[key] else []) + [value]]
  }

  /** The headers after the middleware: the admitted origin and `Vary:
      Origin` only when an origin is admitted, the allowed methods and
      request headers always. */
  function CorsHeaders(h: map<string, seq<string>>, origin: string): (r: map<string, seq<string>>)
    ensures r.Keys == h.Keys + {AllowMethods, AllowHeaders} + (if origin != "" then {AllowOrigin, Vary} else {})
    ensures r[AllowMethods] == [Methods] && r[AllowHeaders] == [RequestHeaders]
    ensures origin != "" ==> r[AllowOrigin] == [origin] && r[Vary] == (if Vary in h then h[Vary] else []) + ["Origin"]
    ensures forall k :: k in h && k !in {AllowMethods, AllowHeaders} && (origin == "" || k !in {AllowOrigin, Vary}) ==> r[k] == h[k]
  {
    var h1 := if origin != "" then Add(Set(h, AllowOrigin, origin), Vary, "Origin") else h;
    Set(Set(h1, AllowMethods, Methods), AllowHeaders, RequestHeaders)
  }

  /** One request through the middleware: the response headers and status
      it writes, and how often the wrapped handler has run (what that
      handler writes is not modelled). */
  class Exchange {
    var headers: map<string, seq<string>>
    var status: Option<nat>
    var nextCalls: nat

    constructor ()
      ensures headers == map[] && status.None? && nextCalls == 0
    {
      headers := map[];
      status := None;
      nextCalls := 0;
    }
  }

  /** `CORSMiddleware` on one request: a preflight `OPTIONS` is answered 200
      without running the wrapped handler, any other method runs it once. */
  method ServeCors(x: Exchange, httpMethod: string, origin: string, allowed: string)
    modifies x
    ensures x.headers == CorsHeaders(old(x.headers), AllowedOrigin(origin, allowed))
    ensures httpMethod == "OPTIONS" ==> x.status == Some(200) && x.nextCalls == old(x.nextCalls)
    ensures httpMethod != "OPTIONS" ==> x.status == old(x.status) && x.nextCalls == old(x.nextCalls) + 1
  {
    var allowedOrigin := GetAllowedOrigin(origin, allowed);
    if allowedOrigin != "" {
      x.headers := Set(x.headers, AllowOrigin, allowedOrigin);
      x.headers := Add(x.headers, Vary, "Origin");
    }
    x.headers := Set(x.headers, AllowMethods, Methods);
    x.headers := Set(x.headers, AllowHeaders, RequestHeaders);
    if httpMethod == "OPTIONS" {
      x.status := Some(200);
      return;
    }
    x.nextCalls := x.nextCalls + 1;
  }
}
