/** The web client's CIDR validation (`validateCIDR`, `validateCIDRList`):
    an IPv4 CIDR pattern checked before a form is submitted. The regular
    expression is written out as predicates on the octet and prefix fields. */
module UiValidation {
  import opened Wrappers
  import opened Text
  import opened IPv4

  /** An octet as the pattern accepts it: one to three digits, value at
      most 255; leading zeros are accepted. */
  predicate IsPatternOctet(f: string) {
    1 <= |f| <= 3 && AllDigits(f) && DigitsValue(f) <= 255
  }

  /** A prefix as the pattern accepts it: one digit, or two digits without
      a leading zero, value at most 32. */
  predicate IsPatternPrefix(p: string) {
    1 <= |p| <= 2 && AllDigits(p) && (|p| == 2 ==> p[0] != '0') && DigitsValue(p) <= 32
  }

  /** The whole text matches the pattern: four dot-separated octets, a
      slash, a prefix. Octets hold no slash, so the first slash is the one. */
  predicate MatchesCidrPattern(s: string) {
    match Cut(s, '/')
    case None => false
    case Some((addr, prefix)) =>
      var octets := Split(addr, {'.'});
      |octets| == 4 && (forall i :: 0 <= i < 4 ==> IsPatternOctet(octets[i])) && IsPatternPrefix(prefix)
  }

  /** `validateCIDR`: the pattern, after trimming. */
  predicate ValidateCidr(cidr: string) {
    MatchesCidrPattern(Trim(cidr))
  }

  /** The CIDR text the back end writes for a network is accepted. */
  lemma ValidateFormatted(c: Cidr)
    requires c.prefix <= 32
    ensures ValidateCidr(FormatCidr(c))
  {
    var o := Octets(c.addr);
    var parts := [NatToString(o[0]), NatToString(o[1]), NatToString(o[2]), NatToString(o[3])];
    forall i | 0 <= i < 4 ensures NoneIn(parts[i], {'.'}) && IsPatternOctet(parts[i]) {
      assert parts[i] == NatToString(o[i]);
    }
    SplitJoin(parts, '.');
    var addr := Format(c.addr);
    var prefix := NatToString(c.prefix);
    assert addr == Join(parts, ".");
    FormatChars(c.addr);
    CutAtFirst(addr, '/', prefix);
    var s := FormatCidr(c);
    assert s == addr + ['/'] + prefix;
    assert s[0] == addr[0];
    assert s[|s| - 1] == prefix[|prefix| - 1];
    TrimUntrimmed(s);
  }

  /** The pattern is looser than the back end on octets: a zero-padded
      octet passes here and is refused by the server. */
  lemma PaddedOctetDiffers()
    ensures ValidateCidr("10.0.0.01/32") && ParseCIDR("10.0.0.01/32").None?
  {
    var fields := ["10", "0", "0", "01"];
    QuadSplits(fields, "10.0.0.01");
    PaddedOctetCut();
    PaddedOctetFields(fields);
    Verdicts("10.0.0.01/32", "10.0.0.01", "32", fields);
  }

  lemma PaddedOctetCut()
    ensures Cut("10.0.0.01/32", '/') == Some(("10.0.0.01", "32")) && Trim("10.0.0.01/32") == "10.0.0.01/32"
  {
    SlashCuts("10.0.0.01", "32", "10.0.0.01/32");
  }

  lemma PaddedOctetFields(fields: seq<string>)
    requires fields == ["10", "0", "0", "01"]
    ensures (forall i :: 0 <= i < 4 ==> IsPatternOctet(fields[i])) && !IsOctetField(fields[3]) && IsPatternPrefix("32")
  {
    TwoDigits("01");
    TwoDigits("32");
    TwoDigits("10");
    assert "0"[..0] == [];
  }

  /** ... and stricter on prefixes: a zero-padded prefix is refused here
      and accepted by the server. */
  lemma PaddedPrefixDiffers()
    ensures !ValidateCidr("10.0.0.1/08") && ParseCIDR("10.0.0.1/08").Some?
  {
    var fields := ["10", "0", "0", "1"];
    QuadSplits(fields, "10.0.0.1");
    PaddedPrefixCut();
    PaddedPrefixFields(fields);
    Verdicts("10.0.0.1/08", "10.0.0.1", "08", fields);
  }

  lemma PaddedPrefixCut()
    ensures Cut("10.0.0.1/08", '/') == Some(("10.0.0.1", "08")) && Trim("10.0.0.1/08") == "10.0.0.1/08"
  {
    SlashCuts("10.0.0.1", "08", "10.0.0.1/08");
  }

  lemma PaddedPrefixFields(fields: seq<string>)
    requires fields == ["10", "0", "0", "1"]
    ensures (forall i :: 0 <= i < 4 ==> IsOctetField(fields[i])) && !IsPatternPrefix("08") && ParsePrefix("08").Some?
  {
    TwoDigits("08");
    TwoDigits("10");
    assert "0"[..0] == [];
    assert "1"[..0] == [];
  }

  lemma TwoDigits(s: string)
    requires |s| == 2 && IsDigit(s[0]) && IsDigit(s[1])
    ensures AllDigits(s) && DigitsValue(s) == 10 * DigitValue(s[0]) + DigitValue(s[1])
  {
    assert s[..|s| - 1] == [s[0]];
    assert [s[0]][..0] == [];
    assert DigitsValue([s[0]]) == DigitValue(s[0]);
  }

  /** Both validators on a text cut into its address fields and prefix. */
  lemma Verdicts(s: string, addr: string, prefix: string, fields: seq<string>)
    requires Cut(s, '/') == Some((addr, prefix)) && Trim(s) == s
    requires Split(addr, {'.'}) == fields && |fields| == 4
    ensures ValidateCidr(s) <==> (forall i :: 0 <= i < 4 ==> IsPatternOctet(fields[i])) && IsPatternPrefix(prefix)
    ensures ParseCIDR(s).Some? <==> (forall i :: 0 <= i < 4 ==> IsOctetField(fields[i])) && ParsePrefix(prefix).Some?
  {
  }

  lemma QuadSplits(fields: seq<string>, s: string)
    requires |fields| == 4 && forall i :: 0 <= i < 4 ==> fields[i] != [] && AllDigits(fields[i])
    requires s == fields[0] + "." + fields[1] + "." + fields[2] + "." + fields[3]
    ensures Split(s, {'.'}) == fields
  {
    forall i | 0 <= i < 4 ensures NoneIn(fields[i], {'.'}) { }
    SplitJoin(fields, '.');
    assert fields[3..] == [fields[3]];
    assert fields[2..][1..] == fields[3..];
    assert fields[1..][1..] == fields[2..];
    assert Join(fields[2..], ['.']) == fields[2] + ['.'] + fields[3];
    assert Join(fields[1..], ['.']) == fields[1] + ['.'] + (fields[2] + ['.'] + fields[3]);
    assert Join(fields, ['.']) == fields[0] + ['.'] + (fields[1] + ['.'] + (fields[2] + ['.'] + fields[3]));
    assert s == fields[0] + ['.'] + (fields[1] + ['.'] + (fields[2] + ['.'] + fields[3]));
  }

  lemma SlashCuts(addr: string, prefix: string, s: string)
    requires addr != [] && prefix != [] && AllDigits(prefix) && IsDigit(addr[0])
    requires forall k :: 0 <= k < |addr| ==> addr[k] != '/'
    requires s == addr + "/" + prefix
    ensures Cut(s, '/') == Some((addr, prefix)) && Trim(s) == s
  {
    CutAtFirst(addr, '/', prefix);
    assert s[|s| - 1] == prefix[|prefix| - 1];
    TrimUntrimmed(s);
  }

  /** Each part trimmed, empty parts dropped, order kept. */
  function NonEmptyTrimmed(parts: seq<string>): seq<string> {
    if parts == [] then []
    else
      var rest := NonEmptyTrimmed(parts[1..]);
      if Trim(parts[0]) == "" then rest else [Trim(parts[0])] + rest
  }

  /** The entries are exactly the non-empty trimmed parts, and there are no
      more of them than parts. */
  lemma {:induction false} NonEmptyTrimmedMembers(parts: seq<string>)
    ensures |NonEmptyTrimmed(parts)| <= |parts|
    ensures forall e :: e in NonEmptyTrimmed(parts) <==> e != "" && exists p :: p in parts && Trim(p) == e
  {
    if parts != [] {
      NonEmptyTrimmedMembers(parts[1..]);
      assert forall p :: p in parts <==> p == parts[0] || p in parts[1..];
    }
  }

  /** Trimming and dropping keep the order: they distribute over
      concatenation. */
  lemma {:induction false} NonEmptyTrimmedAppend(a: seq<string>, b: seq<string>)
    ensures NonEmptyTrimmed(a + b) == NonEmptyTrimmed(a) + NonEmptyTrimmed(b)
    decreases |a|
  {
    if a != [] {
      var ab := a + b;
      assert ab != [] && ab[0] == a[0] && ab[1..] == a[1..] + b;
      NonEmptyTrimmedAppend(a[1..], b);
      var tail := NonEmptyTrimmed(a[1..]) + NonEmptyTrimmed(b);
      assert NonEmptyTrimmed(ab) == if Trim(a[0]) == "" then tail else [Trim(a[0])] + tail;
    } else {
      assert a + b == b;
    }
  }

  /** The entries of a list typed into the form: split at commas and line
      breaks, trimmed, empty entries dropped. */
  function Entries(input: string): seq<string> {
    NonEmptyTrimmed(Split(input, {',', '\n'}))
  }

  /** The entries the pattern rejects, in input order. */
  function Rejected(entries: seq<string>): (r: seq<string>)
    ensures |r| <= |entries|
    ensures forall e :: e in r <==> e in entries && !ValidateCidr(e)
  {
    if entries == [] then []
    else
      var rest := Rejected(entries[1..]);
      assert forall p :: p in entries <==> p == entries[0] || p in entries[1..];
      if ValidateCidr(entries[0]) then rest else [entries[0]] + rest
  }

  /** The rejected entries keep their input order: selecting them
      distributes over concatenation. */
  lemma {:induction false} RejectedAppend(a: seq<string>, b: seq<string>)
    ensures Rejected(a + b) == Rejected(a) + Rejected(b)
    decreases |a|
  {
    if a != [] {
      var ab := a + b;
      assert ab != [] && ab[0] == a[0] && ab[1..] == a[1..] + b;
      RejectedAppend(a[1..], b);
      var tail := Rejected(a[1..]) + Rejected(b);
      assert Rejected(ab) == if ValidateCidr(a[0]) then tail else [a[0]] + tail;
    } else {
      assert a + b == b;
    }
  }

  /** `{ valid, error? }`. */
  datatype ListValidation = ListValidation(valid: bool, error: Option<string>)

  const NoEntriesMessage := "At least one CIDR is required"

  /** `validateCIDRList`. */
  function ValidateCidrList(input: string): (r: ListValidation)
    ensures r.valid <==> Entries(input) != [] && forall e :: e in Entries(input) ==> ValidateCidr(e)
    ensures r.valid <==> r.error.None?
    ensures Entries(input) == [] ==> r.error == Some(NoEntriesMessage)
    ensures Entries(input) != [] && !r.valid ==>
      r.error == Some("Invalid CIDR notation: " + Join(Rejected(Entries(input)), ", ")) &&
      Rejected(Entries(input)) != []
  {
    var cidrs := Entries(input);
    if cidrs == [] then ListValidation(false, Some(NoEntriesMessage))
    else
      var invalid := Rejected(cidrs);
      if invalid != [] then
        assert invalid[0] in invalid;
        ListValidation(false, Some("Invalid CIDR notation: " + Join(invalid, ", ")))
      else
        assert forall e :: e in cidrs ==> ValidateCidr(e);
        ListValidation(true, None)
  }
}
