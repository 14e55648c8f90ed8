/** The client configuration renderer (`GenerateConfigString`): a WireGuard
    `.conf` text with an `[Interface]` and a `[Peer]` section, in which some
    lines are always written and others only when their value is set.
    `Lines` is an independent, table-driven description of the same text:
    a fixed order of keys, each emitted or not by its own rule. */
module ConfigGen {
  import opened Text

  /** Everything the client configuration is made from. */
  datatype PeerConfigInfo = PeerConfigInfo(
    privateKey: string,
    address: seq<string>,
    dns: seq<string>,
    mtu: int,
    persistentKeepalive: int,
    publicKey: string,
    presharedKey: string,
    endpoint: string,
    allowedIPs: seq<string>)

  /** One `Key = value` line. */
  function SettingLine(key: string, value: string): string {
    key + " = " + value + "\n"
  }

  /** A line written only when `emit` holds. */
  function OptionalLine(emit: bool, key: string, value: string): string {
    if emit then SettingLine(key, value) else ""
  }

  /** The text, written in the builder's order. */
  function GenerateConfigString(info: PeerConfigInfo): string {
    "[Interface]\n" +
    SettingLine("PrivateKey", info.privateKey) +
    OptionalLine(|info.address| > 0, "Address", Join(info.address, ", ")) +
    OptionalLine(|info.dns| > 0, "DNS", Join(info.dns, ", ")) +
    OptionalLine(info.mtu > 0, "MTU", IntToString(info.mtu)) +
    "\n" +
    "[Peer]\n" +
    SettingLine("PublicKey", info.publicKey) +
    OptionalLine(info.presharedKey != "", "PresharedKey", info.presharedKey) +
    SettingLine("Endpoint", info.endpoint) +
    OptionalLine(|info.allowedIPs| > 0, "AllowedIPs", Join(info.allowedIPs, ", ")) +
    OptionalLine(info.persistentKeepalive > 0, "PersistentKeepalive", IntToString(info.persistentKeepalive))
  }

  // ---------------------------------------------------------------------------
  // The configuration as a list of lines

  /** The settings a configuration can hold. */
  datatype Key =
    | PrivateKey | Address | DNS | MTU
    | PublicKey | PresharedKey | Endpoint | AllowedIPs | PersistentKeepalive

  /** The name a setting is written with. */
  function KeyName(key: Key): string {
    match key
    case PrivateKey => "PrivateKey"
    case Address => "Address"
    case DNS => "DNS"
    case MTU => "MTU"
    case PublicKey => "PublicKey"
    case PresharedKey => "PresharedKey"
    case Endpoint => "Endpoint"
    case AllowedIPs => "AllowedIPs"
    case PersistentKeepalive => "PersistentKeepalive"
  }

  datatype Line = Header(section: string) | Setting(key: Key, value: string) | Blank

  function RenderLine(l: Line): string {
    match l
    case Header(section) => "[" + section + "]\n"
    case Setting(key, value) => SettingLine(KeyName(key), value)
    case Blank => "\n"
  }

  /** The lines one after the other, each with its newline. */
  function Render(lines: seq<Line>): string {
    if lines == [] then "" else RenderLine(lines[0]) + Render(lines[1..])
  }

  const InterfaceKeys: seq<Key> := [PrivateKey, Address, DNS, MTU]
  const PeerKeys: seq<Key> := [PublicKey, PresharedKey, Endpoint, AllowedIPs, PersistentKeepalive]

  /** Whether the line of `key` is written: lists when non-empty, numbers
      when positive, the preshared key when set, the rest always. */
  predicate Emitted(info: PeerConfigInfo, key: Key) {
    match key
    case Address => |info.address| > 0
    case DNS => |info.dns| > 0
    case MTU => info.mtu > 0
    case PresharedKey => info.presharedKey != ""
    case AllowedIPs => |info.allowedIPs| > 0
    case PersistentKeepalive => info.persistentKeepalive > 0
    case _ => true
  }

  /** The value written on the line of `key`; lists are joined with ", ". */
  function ValueOf(info: PeerConfigInfo, key: Key): string {
    match key
    case PrivateKey => info.privateKey
    case Address => Join(info.address, ", ")
    case DNS => Join(info.dns, ", ")
    case MTU => IntToString(info.mtu)
    case PublicKey => info.publicKey
    case PresharedKey => info.presharedKey
    case Endpoint => info.endpoint
    case AllowedIPs => Join(info.allowedIPs, ", ")
    case PersistentKeepalive => IntToString(info.persistentKeepalive)
  }

  /** The line of `key` when it is emitted, nothing otherwise. */
  function KeyLine(info: PeerConfigInfo, key: Key): seq<Line> {
    if Emitted(info, key) then [Setting(key, ValueOf(info, key))] else []
  }

  /** The emitted settings among `keys`, in the order of `keys`. */
  function Section(info: PeerConfigInfo, keys: seq<Key>): seq<Line> {
    if keys == [] then [] else KeyLine(info, keys[0]) + Section(info, keys[1..])
  }

  function Lines(info: PeerConfigInfo): seq<Line> {
    [Header("Interface")] + Section(info, InterfaceKeys) + [Blank, Header("Peer")] + Section(info, PeerKeys)
  }

  // ---------------------------------------------------------------------------
  // The builder writes the lines

  lemma {:induction false} RenderConcat(a: seq<Line>, b: seq<Line>)
    ensures Render(a + b) == Render(a) + Render(b)
  {
    if a == [] {
      assert a + b == b;
    } else {
      assert (a + b)[0] == a[0];
      assert (a + b)[1..] == a[1..] + b;
      RenderConcat(a[1..], b);
      assert RenderLine(a[0]) + (Render(a[1..]) + Render(b)) == (RenderLine(a[0]) + Render(a[1..])) + Render(b);
    }
  }

  lemma RenderKeyLine(info: PeerConfigInfo, key: Key)
    ensures Render(KeyLine(info, key)) == OptionalLine(Emitted(info, key), KeyName(key), ValueOf(info, key))
  {
  }

  lemma Regroup4(r0: string, r1: string, r2: string, r3: string)
    ensures r0 + (r1 + (r2 + (r3 + ""))) == r0 + r1 + r2 + r3
  {
  }

  lemma Regroup5(r0: string, r1: string, r2: string, r3: string, r4: string)
    ensures r0 + (r1 + (r2 + (r3 + (r4 + "")))) == r0 + r1 + r2 + r3 + r4
  {
  }

  lemma RenderInterface(info: PeerConfigInfo)
    ensures Render(Section(info, InterfaceKeys)) ==
      SettingLine("PrivateKey", info.privateKey) +
      OptionalLine(|info.address| > 0, "Address", Join(info.address, ", ")) +
      OptionalLine(|info.dns| > 0, "DNS", Join(info.dns, ", ")) +
      OptionalLine(info.mtu > 0, "MTU", IntToString(info.mtu))
  {
    var k := InterfaceKeys;
    var l0, l1, l2, l3 := KeyLine(info, k[0]), KeyLine(info, k[1]), KeyLine(info, k[2]), KeyLine(info, k[3]);
    assert k[1..][1..][1..][1..] == [];
    assert Section(info, k[1..][1..][1..]) == l3 + [];
    assert Section(info, k[1..][1..]) == l2 + (l3 + []);
    assert Section(info, k[1..]) == l1 + (l2 + (l3 + []));
    assert Section(info, k) == l0 + (l1 + (l2 + (l3 + [])));
    RenderConcat(l0, l1 + (l2 + (l3 + [])));
    RenderConcat(l1, l2 + (l3 + []));
    RenderConcat(l2, l3 + []);
    RenderConcat(l3, []);
    RenderKeyLine(info, k[0]);
    RenderKeyLine(info, k[1]);
    RenderKeyLine(info, k[2]);
    RenderKeyLine(info, k[3]);
    assert Render(l0) == SettingLine("PrivateKey", info.privateKey);
    Regroup4(Render(l0), Render(l1), Render(l2), Render(l3));
  }

  lemma RenderPeer(info: PeerConfigInfo)
    ensures Render(Section(info, PeerKeys)) ==
      SettingLine("PublicKey", info.publicKey) +
      OptionalLine(info.presharedKey != "", "PresharedKey", info.presharedKey) +
      SettingLine("Endpoint", info.endpoint) +
      OptionalLine(|info.allowedIPs| > 0, "AllowedIPs", Join(info.allowedIPs, ", ")) +
      OptionalLine(info.persistentKeepalive > 0, "PersistentKeepalive", IntToString(info.persistentKeepalive))
  {
    var k := PeerKeys;
    var l0, l1, l2, l3, l4 := KeyLine(info, k[0]), KeyLine(info, k[1]), KeyLine(info, k[2]), KeyLine(info, k[3]), KeyLine(info, k[4]);
    assert k[1..][1..][1..][1..][1..] == [];
    assert Section(info, k[1..][1..][1..][1..]) == l4 + [];
    assert Section(info, k[1..][1..][1..]) == l3 + (l4 + []);
    assert Section(info, k[1..][1..]) == l2 + (l3 + (l4 + []));
    assert Section(info, k[1..]) == l1 + (l2 + (l3 + (l4 + [])));
    assert Section(info, k) == l0 + (l1 + (l2 + (l3 + (l4 + []))));
    RenderConcat(l0, l1 + (l2 + (l3 + (l4 + []))));
    RenderConcat(l1, l2 + (l3 + (l4 + [])));
    RenderConcat(l2, l3 + (l4 + []));
    RenderConcat(l3, l4 + []);
    RenderConcat(l4, []);
    RenderKeyLine(info, k[0]);
    RenderKeyLine(info, k[1]);
    RenderKeyLine(info, k[2]);
    RenderKeyLine(info, k[3]);
    RenderKeyLine(info, k[4]);
    assert Render(l0) == SettingLine("PublicKey", info.publicKey);
    assert Render(l2) == SettingLine("Endpoint", info.endpoint);
    Regroup5(Render(l0), Render(l1), Render(l2), Render(l3), Render(l4));
  }

  lemma Regroup(h: string, p: string, p0: string, p1: string, p2: string, p3: string,
                n: string, hp: string, q: string, q0: string, q1: string, q2: string, q3: string, q4: string)
    requires p == p0 + p1 + p2 + p3 && q == q0 + q1 + q2 + q3 + q4
    ensures h + p + (n + hp) + q == h + p0 + p1 + p2 + p3 + n + hp + q0 + q1 + q2 + q3 + q4
  {
  }

  lemma RenderHeaders()
    ensures Render([Header("Interface")]) == "[Interface]\n"
    ensures Render([Blank, Header("Peer")]) == "\n" + "[Peer]\n"
  {
  }

  /** The builder writes exactly the lines of `Lines`, each ended by a
      newline: the table of keys is a second description of the same text. */
  lemma GenerateIsRender(info: PeerConfigInfo)
    ensures GenerateConfigString(info) == Render(Lines(info))
  {
    var a := [Header("Interface")];
    var b := Section(info, InterfaceKeys);
    var c := [Blank, Header("Peer")];
    var d := Section(info, PeerKeys);
    RenderConcat(a + b + c, d);
    RenderConcat(a + b, c);
    RenderConcat(a, b);
    RenderHeaders();
    RenderInterface(info);
    RenderPeer(info);
    Regroup("[Interface]\n", Render(b),
      SettingLine("PrivateKey", info.privateKey),
      OptionalLine(|info.address| > 0, "Address", Join(info.address, ", ")),
      OptionalLine(|info.dns| > 0, "DNS", Join(info.dns, ", ")),
      OptionalLine(info.mtu > 0, "MTU", IntToString(info.mtu)),
      "\n", "[Peer]\n", Render(d),
      SettingLine("PublicKey", info.publicKey),
      OptionalLine(info.presharedKey != "", "PresharedKey", info.presharedKey),
      SettingLine("Endpoint", info.endpoint),
      OptionalLine(|info.allowedIPs| > 0, "AllowedIPs", Join(info.allowedIPs, ", ")),
      OptionalLine(info.persistentKeepalive > 0, "PersistentKeepalive", IntToString(info.persistentKeepalive)));
  }

  // ---------------------------------------------------------------------------
  // Which lines are written, and in what order

  /** A setting line is present exactly when its key is among `keys`, its
      rule emits it and it carries that key's value. */
  lemma {:induction false} SectionHas(info: PeerConfigInfo, keys: seq<Key>, key: Key, value: string)
    ensures Setting(key, value) in Section(info, keys) <==>
      key in keys && Emitted(info, key) && value == ValueOf(info, key)
  {
    if keys != [] {
      SectionHas(info, keys[1..], key, value);
      assert keys == [keys[0]] + keys[1..];
    }
  }

  /** Every line of a section is a setting of one of its keys. */
  lemma {:induction false} SectionSettings(info: PeerConfigInfo, keys: seq<Key>)
    ensures forall l :: l in Section(info, keys) ==> l.Setting? && l.key in keys
  {
    if keys != [] {
      SectionSettings(info, keys[1..]);
      assert keys == [keys[0]] + keys[1..];
    }
  }

  /** A setting line is present exactly when its key is one of the
      configuration's keys, its rule emits it and it carries that key's
      value. */
  lemma LinesHave(info: PeerConfigInfo, key: Key, value: string)
    ensures Setting(key, value) in Lines(info) <==>
      (key in InterfaceKeys || key in PeerKeys) && Emitted(info, key) && value == ValueOf(info, key)
  {
    SectionHas(info, InterfaceKeys, key, value);
    SectionHas(info, PeerKeys, key, value);
  }

  /** The lines written whatever the values: the headers, the blank line
      and the PrivateKey, PublicKey and Endpoint lines (the endpoint even
      when it is empty). */
  lemma LinesAlways(info: PeerConfigInfo)
    ensures Header("Interface") in Lines(info) && Blank in Lines(info) && Header("Peer") in Lines(info)
    ensures Setting(PrivateKey, info.privateKey) in Lines(info)
    ensures Setting(PublicKey, info.publicKey) in Lines(info)
    ensures Setting(Endpoint, info.endpoint) in Lines(info)
  {
    LinesHave(info, PrivateKey, info.privateKey);
    LinesHave(info, PublicKey, info.publicKey);
    LinesHave(info, Endpoint, info.endpoint);
  }

  /** The optional interface lines: Address and DNS exactly for non-empty
      lists, joined with ", "; MTU exactly for a positive value. */
  lemma InterfaceOptional(info: PeerConfigInfo)
    ensures Setting(Address, Join(info.address, ", ")) in Lines(info) <==> |info.address| > 0
    ensures Setting(DNS, Join(info.dns, ", ")) in Lines(info) <==> |info.dns| > 0
    ensures Setting(MTU, IntToString(info.mtu)) in Lines(info) <==> info.mtu > 0
  {
    LinesHave(info, Address, Join(info.address, ", "));
    LinesHave(info, DNS, Join(info.dns, ", "));
    LinesHave(info, MTU, IntToString(info.mtu));
  }

  /** The optional peer lines: PresharedKey exactly for a non-empty key,
      AllowedIPs exactly for a non-empty list, PersistentKeepalive exactly
      for a positive value. */
  lemma PeerOptional(info: PeerConfigInfo)
    ensures Setting(PresharedKey, info.presharedKey) in Lines(info) <==> info.presharedKey != ""
    ensures Setting(AllowedIPs, Join(info.allowedIPs, ", ")) in Lines(info) <==> |info.allowedIPs| > 0
    ensures Setting(PersistentKeepalive, IntToString(info.persistentKeepalive)) in Lines(info) <==>
      info.persistentKeepalive > 0
  {
    LinesHave(info, PresharedKey, info.presharedKey);
    LinesHave(info, AllowedIPs, Join(info.allowedIPs, ", "));
    LinesHave(info, PersistentKeepalive, IntToString(info.persistentKeepalive));
  }

  /** The index of the first occurrence of `key` in `keys`. */
  function Position(keys: seq<Key>, key: Key): nat {
    if keys == [] then 0
    else if keys[0] == key then 0
    else 1 + Position(keys[1..], key)
  }

  predicate Distinct(keys: seq<Key>) {
    forall i, j :: 0 <= i < j < |keys| ==> keys[i] != keys[j]
  }

  /** Every line is a setting and their keys come in the order of `keys`. */
  predicate Ordered(lines: seq<Line>, keys: seq<Key>) {
    forall i, j :: 0 <= i < j < |lines| ==>
      lines[i].Setting? && lines[j].Setting? && Position(keys, lines[i].key) < Position(keys, lines[j].key)
  }

  /** Putting the line of the first key in front of lines ordered by the
      other keys keeps them ordered. */
  lemma OrderedCons(keys: seq<Key>, head: seq<Line>, t: seq<Line>)
    requires keys != [] && keys[0] !in keys[1..]
    requires head == [] || (|head| == 1 && head[0].Setting? && head[0].key == keys[0])
    requires forall l :: l in t ==> l.Setting? && l.key in keys[1..]
    requires Ordered(t, keys[1..])
    ensures Ordered(head + t, keys)
  {
  }

  /** The settings of a section come in the order of its keys. */
  lemma {:induction false} SectionOrder(info: PeerConfigInfo, keys: seq<Key>)
    requires Distinct(keys)
    ensures Ordered(Section(info, keys), keys)
  {
    if keys != [] {
      assert Distinct(keys[1..]);
      assert keys[0] !in keys[1..];
      SectionOrder(info, keys[1..]);
      SectionSettings(info, keys[1..]);
      OrderedCons(keys, KeyLine(info, keys[0]), Section(info, keys[1..]));
    }
  }

  /** The order of the lines is fixed: the `[Interface]` header, the emitted
      interface settings in the order PrivateKey, Address, DNS, MTU, a blank
      line, the `[Peer]` header and the emitted peer settings in the order
      PublicKey, PresharedKey, Endpoint, AllowedIPs, PersistentKeepalive. */
  lemma LinesOrder(info: PeerConfigInfo)
    ensures var n := |Section(info, InterfaceKeys)|;
      Lines(info)[0] == Header("Interface") && Lines(info)[n + 1] == Blank && Lines(info)[n + 2] == Header("Peer")
    ensures Ordered(Section(info, InterfaceKeys), InterfaceKeys)
    ensures Ordered(Section(info, PeerKeys), PeerKeys)
  {
    assert Distinct(InterfaceKeys);
    assert Distinct(PeerKeys);
    SectionOrder(info, InterfaceKeys);
    SectionOrder(info, PeerKeys);
  }

  /** The text starts with the `[Interface]` header and the private key
      line; the rest is the remaining lines. */
  lemma StartsWithInterface(info: PeerConfigInfo)
    ensures |Lines(info)| >= 2
    ensures GenerateConfigString(info) ==
      "[Interface]\n" + SettingLine("PrivateKey", info.privateKey) + Render(Lines(info)[2..])
  {
    GenerateIsRender(info);
    var lines := Lines(info);
    LinesStart(info);
    assert lines == lines[..2] + lines[2..];
    RenderConcat(lines[..2], lines[2..]);
    RenderOpening(info.privateKey);
  }

  /** The first two lines: the header and the private key. */
  lemma LinesStart(info: PeerConfigInfo)
    ensures |Lines(info)| >= 2 && Lines(info)[..2] == [Header("Interface"), Setting(PrivateKey, info.privateKey)]
  {
  }

  lemma RenderOpening(privateKey: string)
    ensures Render([Header("Interface"), Setting(PrivateKey, privateKey)]) ==
      "[Interface]\n" + SettingLine("PrivateKey", privateKey)
  {
    var two := [Header("Interface"), Setting(PrivateKey, privateKey)];
    assert two[1..][1..] == [];
    assert Render(two[1..]) == SettingLine("PrivateKey", privateKey) + "";
  }
}
