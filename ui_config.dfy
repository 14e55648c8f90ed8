/** The web client's configuration helpers: the configuration shown after a
    peer is created (the server's own text, or a fallback template when the
    response carries none) and the file name a downloaded configuration is
    saved under. */
module UiConfig {
  import opened Wrappers
  import opened Text

  /** The client's view of the creation response; absent optional fields
      are `None`. */
  datatype PeerCreateResponse = PeerCreateResponse(
    id: string,
    publicKey: string,
    name: string,
    allowedIPs: seq<string>,
    config: Option<string>,
    privateKey: Option<string>,
    presharedKey: Option<string>)

  /** JavaScript truthiness of an optional string: present and non-empty. */
  predicate Truthy(s: Option<string>) {
    s.Some? && s.value != ""
  }

  const PrivateKeyPlaceholder := "<PRIVATE_KEY>"

  /** The lines of the fallback template: the private key when present,
      else a placeholder; the allowed IPs as the address; a fixed DNS,
      endpoint, full-tunnel routes and keepalive; the peer's public key. */
  function FallbackLines(response: PeerCreateResponse): seq<string> {
    var privateKey := if Truthy(response.privateKey) then response.privateKey.value else PrivateKeyPlaceholder;
    ["[Interface]",
     "PrivateKey = " + privateKey,
     "Address = " + Join(response.allowedIPs, ", "),
     "DNS = 1.1.1.1",
     "",
     "[Peer]",
     "PublicKey = " + response.publicKey,
     "Endpoint = <SERVER_ENDPOINT>:51820",
     "AllowedIPs = 0.0.0.0/0, ::/0",
     "PersistentKeepalive = 25"]
  }

  /** `generateWireGuardConfig`: the server's text when it sent one,
      otherwise the fallback template. */
  function GenerateWireGuardConfig(response: PeerCreateResponse): (r: string)
    ensures Truthy(response.config) ==> r == response.config.value
    ensures !Truthy(response.config) ==> r == Join(FallbackLines(response), "\n")
  {
    if Truthy(response.config) then response.config.value
    else Join(FallbackLines(response), "\n")
  }

  /** A fallback configuration reads back line by line as the template's
      lines, provided no value put into it holds a line break. */
  lemma FallbackReadsBack(response: PeerCreateResponse)
    requires !Truthy(response.config)
    requires NoneIn(response.publicKey, {'\n'})
    requires response.privateKey.Some? ==> NoneIn(response.privateKey.value, {'\n'})
    requires forall i :: 0 <= i < |response.allowedIPs| ==> NoneIn(response.allowedIPs[i], {'\n'})
    ensures Split(GenerateWireGuardConfig(response), {'\n'}) == FallbackLines(response)
  {
    FallbackLinesUnbroken(response);
    SplitJoin(FallbackLines(response), '\n');
  }

  lemma FallbackLinesUnbroken(response: PeerCreateResponse)
    requires NoneIn(response.publicKey, {'\n'})
    requires response.privateKey.Some? ==> NoneIn(response.privateKey.value, {'\n'})
    requires forall i :: 0 <= i < |response.allowedIPs| ==> NoneIn(response.allowedIPs[i], {'\n'})
    ensures |FallbackLines(response)| == 10
    ensures forall i :: 0 <= i < 10 ==> NoneIn(FallbackLines(response)[i], {'\n'})
  {
    var lines := FallbackLines(response);
    JoinNoneIn(response.allowedIPs, ", ", '\n');
    var privateKey := if Truthy(response.privateKey) then response.privateKey.value else PrivateKeyPlaceholder;
    ConcatNoneIn("PrivateKey = ", privateKey, '\n');
    ConcatNoneIn("Address = ", Join(response.allowedIPs, ", "), '\n');
    ConcatNoneIn("PublicKey = ", response.publicKey, '\n');
    InterfaceLinesUnbroken(lines);
    PeerLinesUnbroken(lines);
  }

  lemma InterfaceLinesUnbroken(lines: seq<string>)
    requires |lines| == 10 && lines[0] == "[Interface]" && lines[3] == "DNS = 1.1.1.1" && lines[4] == "" && lines[5] == "[Peer]"
    ensures NoneIn(lines[0], {'\n'}) && NoneIn(lines[3], {'\n'}) && NoneIn(lines[4], {'\n'}) && NoneIn(lines[5], {'\n'})
  {
  }

  lemma PeerLinesUnbroken(lines: seq<string>)
    requires |lines| == 10 && lines[7] == "Endpoint = <SERVER_ENDPOINT>:51820"
    requires lines[8] == "AllowedIPs = 0.0.0.0/0, ::/0" && lines[9] == "PersistentKeepalive = 25"
    ensures NoneIn(lines[7], {'\n'}) && NoneIn(lines[8], {'\n'}) && NoneIn(lines[9], {'\n'})
  {
  }

  lemma ConcatNoneIn(a: string, b: string, c: char)
    requires NoneIn(a, {c}) && NoneIn(b, {c})
    ensures NoneIn(a + b, {c})
  {
  }

  /** The fallback's private key line shows the placeholder exactly when
      the response has no private key (or one spelled like the
      placeholder). */
  lemma FallbackPrivateKey(response: PeerCreateResponse)
    ensures FallbackLines(response)[1] == "PrivateKey = " + PrivateKeyPlaceholder <==>
      !Truthy(response.privateKey) || response.privateKey.value == PrivateKeyPlaceholder
  {
    var p := "PrivateKey = ";
    if Truthy(response.privateKey) && FallbackLines(response)[1] == p + PrivateKeyPlaceholder {
      assert PrivateKeyPlaceholder == (p + response.privateKey.value)[|p|..];
    }
  }

  /** A join of parts free of a character, with a separator free of it, is
      free of it. */
  lemma {:induction false} JoinNoneIn(parts: seq<string>, sep: string, c: char)
    requires NoneIn(sep, {c})
    requires forall i :: 0 <= i < |parts| ==> NoneIn(parts[i], {c})
    ensures NoneIn(Join(parts, sep), {c})
    decreases |parts|
  {
    if |parts| > 1 {
      JoinNoneIn(parts[1..], sep, c);
    }
  }

  /** A character the file name keeps: a letter, a digit, `-` or `_`. */
  predicate IsFilenameChar(c: char) {
    'a' <= c <= 'z' || 'A' <= c <= 'Z' || '0' <= c <= '9' || c == '-' || c == '_'
  }

  /** The download name: every other character of the peer name replaced
      by `_`, then `.conf`. */
  function SanitizeFilename(name: string): (r: string)
    ensures |r| == |name| + 5 && r[|name|..] == ".conf"
    ensures forall i :: 0 <= i < |name| ==> IsFilenameChar(r[i]) && (IsFilenameChar(name[i]) ==> r[i] == name[i])
    ensures forall i :: 0 <= i < |name| && !IsFilenameChar(name[i]) ==> r[i] == '_'
  {
    seq(|name|, i requires 0 <= i < |name| => if IsFilenameChar(name[i]) then name[i] else '_') + ".conf"
  }

  /** Sanitising the stem of a sanitised name changes nothing. */
  lemma SanitizeIdempotent(name: string)
    ensures var r := SanitizeFilename(name); SanitizeFilename(r[..|name|]) == r
  {
  }
}
