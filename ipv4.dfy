/** IPv4 addresses and networks as the back end handles them through Go's
    `net` package: an address is a 4-byte big-endian `net.IP`, read here as a
    natural below 2^32; a network is an address and a prefix length. Covers
    dotted-decimal rendering, `net.ParseCIDR` for IPv4 text, masking, subnet
    membership and the in-place byte increment the allocator uses. */
module IPv4 {
  import opened Wrappers
  import opened Text

  const AddressSpace: nat := 0x1_0000_0000

  type Byte = b: int | 0 <= b < 256
  type Address = a: nat | a < AddressSpace

  /** A parsed `a.b.c.d/p`: the address as written and the prefix length. */
  datatype Cidr = Cidr(addr: Address, prefix: nat)

  function Pow256(n: nat): (r: nat)
    ensures r >= 1
  {
    if n == 0 then 1 else 256 * Pow256(n - 1)
  }

  function Pow2(n: nat): (r: nat)
    ensures r >= 1
  {
    if n == 0 then 1 else 2 * Pow2(n - 1)
  }

  // ---------------------------------------------------------------------------
  // Bytes

  /** The number a big-endian byte string denotes. */
  function Value(bs: seq<Byte>): nat {
    if bs == [] then 0 else Value(bs[..|bs| - 1]) * 256 + bs[|bs| - 1]
  }

  lemma {:induction false} ValueBound(bs: seq<Byte>)
    ensures Value(bs) < Pow256(|bs|)
  {
    if bs != [] {
      ValueBound(bs[..|bs| - 1]);
      assert Value(bs[..|bs| - 1]) + 1 <= Pow256(|bs| - 1);
      assert (Value(bs[..|bs| - 1]) + 1) * 256 <= Pow256(|bs| - 1) * 256;
    }
  }

  function Zeros(n: nat): (z: seq<Byte>)
    ensures |z| == n && forall k :: 0 <= k < n ==> z[k] == 0
  {
    if n == 0 then [] else Zeros(n - 1) + [0]
  }

  function Ones(n: nat): (z: seq<Byte>)
    ensures |z| == n && forall k :: 0 <= k < n ==> z[k] == 255
  {
    if n == 0 then [] else Ones(n - 1) + [255]
  }

  lemma {:induction false} ValueConcat(a: seq<Byte>, b: seq<Byte>)
    ensures Value(a + b) == Value(a) * Pow256(|b|) + Value(b)
    decreases |b|
  {
    if b == [] {
      assert a + b == a;
    } else {
      var b' := b[..|b| - 1];
      assert (a + b)[..|a + b| - 1] == a + b';
      ValueConcat(a, b');
      calc {
        Value(a + b);
        Value(a + b') * 256 + b[|b| - 1];
        (Value(a) * Pow256(|b'|) + Value(b')) * 256 + b[|b| - 1];
        Value(a) * (Pow256(|b'|) * 256) + (Value(b') * 256 + b[|b| - 1]);
        Value(a) * Pow256(|b|) + Value(b);
      }
    }
  }

  lemma {:induction false} ValueZeros(n: nat)
    ensures Value(Zeros(n)) == 0
  {
    if n > 0 {
      ValueZeros(n - 1);
      assert Zeros(n)[..n - 1] == Zeros(n - 1);
    }
  }

  lemma {:induction false} ValueOnes(n: nat)
    ensures Value(Ones(n)) == Pow256(n) - 1
  {
    if n > 0 {
      ValueOnes(n - 1);
      assert Ones(n)[..n - 1] == Ones(n - 1);
    }
  }

  /** Two byte strings of one length with the same value are equal. */
  lemma {:induction false} ValueInjective(a: seq<Byte>, b: seq<Byte>)
    requires |a| == |b| && Value(a) == Value(b)
    ensures a == b
  {
    if a != [] {
      var n := |a| - 1;
      DivModUnique(Value(a), 256, Value(a[..n]), a[n] as int);
      DivModUnique(Value(b), 256, Value(b[..n]), b[n] as int);
      ValueInjective(a[..n], b[..n]);
      assert a == a[..n] + [a[n]] && b == b[..n] + [b[n]];
    }
  }

  /** The byte-wise complement (Go's `^` on each byte). */
  function Complement(bs: seq<Byte>): (c: seq<Byte>)
    ensures |c| == |bs| && forall k :: 0 <= k < |bs| ==> c[k] == 255 - bs[k]
  {
    if bs == [] then [] else Complement(bs[..|bs| - 1]) + [255 - bs[|bs| - 1]]
  }

  /** Complementing every byte complements the whole number. */
  lemma {:induction false} ValueComplement(bs: seq<Byte>)
    ensures Value(Complement(bs)) == Pow256(|bs|) - 1 - Value(bs)
  {
    if bs != [] {
      var n := |bs| - 1;
      ValueComplement(bs[..n]);
      assert Complement(bs)[..n] == Complement(bs[..n]);
    }
  }

  // ---------------------------------------------------------------------------
  // Addresses

  lemma Pow256Four()
    ensures Pow256(4) == AddressSpace
  {
  }

  /** The four bytes of an address, most significant first. */
  function Octets(a: Address): (o: seq<Byte>)
    ensures |o| == 4 && Value(o) == a
  {
    var q1 := a / 256;
    var q2 := q1 / 256;
    var o := [q2 / 256, q2 % 256, q1 % 256, a % 256];
    assert o[..3][..2][..1] == [q2 / 256] && o[..3][..2] == o[..2] && o[..3] == o[..3];
    assert Value(o[..1]) == q2 / 256;
    assert Value(o[..2]) == q2;
    assert Value(o[..3]) == q1;
    o
  }

  function FromOctets(o: seq<Byte>): (a: Address)
    requires |o| == 4
    ensures Octets(a) == o
  {
    ValueBound(o);
    Pow256Four();
    var a: Address := Value(o);
    ValueInjective(Octets(a), o);
    a
  }

  /** `net.IP.String` of a 4-byte address: dotted decimal without leading zeros. */
  function Format(a: Address): string {
    var o := Octets(a);
    Join([NatToString(o[0]), NatToString(o[1]), NatToString(o[2]), NatToString(o[3])], ".")
  }

  // ---------------------------------------------------------------------------
  // Parsing

  /** One field of a dotted quad as `netip.ParseAddr` accepts it: digits only,
      at least one, no leading zero unless the field is `0`, value at most 255. */
  predicate IsOctetField(f: string) {
    |f| >= 1 && AllDigits(f) && (f[0] == '0' ==> |f| == 1) && DigitsValue(f) <= 255
  }

  /** IPv4 text as Go's `netip.ParseAddr` reads it: exactly four fields. */
  function ParseAddr(s: string): (r: Option<Address>)
    ensures r.Some? ==> Format(r.value) == s
  {
    var fields := Split(s, {'.'});
    if |fields| == 4 && forall i :: 0 <= i < 4 ==> IsOctetField(fields[i]) then
      var o := [DigitsValue(fields[0]) as Byte, DigitsValue(fields[1]) as Byte,
                DigitsValue(fields[2]) as Byte, DigitsValue(fields[3]) as Byte];
      var a := FromOctets(o);
      CanonicalFields(fields, o);
      JoinSplit(s, '.');
      Some(a)
    else None
  }

  lemma CanonicalFields(fields: seq<string>, o: seq<Byte>)
    requires |fields| == 4 && |o| == 4
    requires forall i :: 0 <= i < 4 ==> IsOctetField(fields[i]) && o[i] == DigitsValue(fields[i])
    ensures Format(FromOctets(o)) == Join(fields, ".")
  {
    forall i | 0 <= i < 4 ensures NatToString(o[i]) == fields[i] {
      CanonicalDigits(fields[i]);
    }
    assert [NatToString(o[0]), NatToString(o[1]), NatToString(o[2]), NatToString(o[3])] == fields;
  }

  /** A digit string without a superfluous leading zero is the rendering of its value. */
  lemma {:induction false} CanonicalDigits(f: string)
    requires |f| >= 1 && AllDigits(f) && (f[0] == '0' ==> |f| == 1)
    ensures NatToString(DigitsValue(f)) == f
    decreases |f|
  {
    var n := DigitsValue(f);
    if |f| == 1 {
      assert f[..|f| - 1] == [];
      assert DigitsValue(f[..|f| - 1]) == 0;
      assert n == DigitValue(f[0]);
      assert n < 10;
      assert NatToString(n) == [DigitChar(n)];
    } else {
      var init := f[..|f| - 1];
      assert init[0] == f[0];
      CanonicalDigits(init);
      assert NatToString(0) == "0";
      assert DigitsValue(init) != 0;
      assert n / 10 == DigitsValue(init) && n % 10 == DigitValue(f[|f| - 1]);
      assert f == init + [f[|f| - 1]];
    }
  }

  /** The prefix after `/` as Go's `dtoi` reads it: digits only, at least one,
      leading zeros allowed; the caller bounds it by 32. */
  function ParsePrefix(m: string): (r: Option<nat>)
    ensures r.Some? ==> r.value <= 32
  {
    if |m| >= 1 && AllDigits(m) && DigitsValue(m) <= 32 then Some(DigitsValue(m)) else None
  }

  /** `net.ParseCIDR` on IPv4 text: the address and the prefix length, or
      `None` for anything Go rejects. The network is `Network(addr, prefix)`. */
  function ParseCIDR(s: string): (r: Option<Cidr>)
    ensures r.Some? ==> r.value.prefix <= 32
    ensures r.Some? ==> '/' in s
  {
    match Cut(s, '/')
    case None => None
    case Some((addr, mask)) =>
      match (ParseAddr(addr), ParsePrefix(mask))
      case (Some(a), Some(p)) => Some(Cidr(a, p))
      case _ => None
  }

  /** `a.b.c.d/p` as `net.IPNet.String` writes it. */
  function FormatCidr(c: Cidr): string {
    Format(c.addr) + "/" + NatToString(c.prefix)
  }

  /** Rendering a network and parsing it back gives the same network. */
  lemma ParseFormatCidr(c: Cidr)
    requires c.prefix <= 32
    ensures ParseCIDR(FormatCidr(c)) == Some(c)
  {
    ParseFormat(c.addr);
    FormatChars(c.addr);
    CutAtFirst(Format(c.addr), '/', NatToString(c.prefix));
  }

  /** Dotted decimal parses back to the address it renders. */
  lemma ParseFormat(a: Address)
    ensures ParseAddr(Format(a)) == Some(a)
  {
    var o := Octets(a);
    var parts := [NatToString(o[0]), NatToString(o[1]), NatToString(o[2]), NatToString(o[3])];
    forall i | 0 <= i < 4 ensures NoneIn(parts[i], {'.'}) && IsOctetField(parts[i]) && DigitsValue(parts[i]) == o[i] {
      assert NatToString(o[i]) == parts[i];
    }
    SplitJoin(parts, '.');
    assert Format(a) == Join(parts, ".");
    ParseFields(Format(a), parts, o);
    ValueInjective(Octets(FromOctets(o)), Octets(a));
  }

  /** Text that splits into four canonical fields parses to their bytes. */
  lemma ParseFields(s: string, fields: seq<string>, o: seq<Byte>)
    requires |fields| == 4 && |o| == 4 && Split(s, {'.'}) == fields
    requires forall i :: 0 <= i < 4 ==> IsOctetField(fields[i]) && DigitsValue(fields[i]) == o[i]
    ensures ParseAddr(s) == Some(FromOctets(o))
  {
  }

  /** Distinct addresses render differently, so comparing renderings is
      comparing addresses. */
  lemma FormatInjective(a: Address, b: Address)
    requires Format(a) == Format(b)
    ensures a == b
  {
    ParseFormat(a);
    ParseFormat(b);
  }

  /** Dotted decimal holds only digits and dots. */
  lemma FormatChars(a: Address)
    ensures forall k :: 0 <= k < |Format(a)| ==> IsDigit(Format(a)[k]) || Format(a)[k] == '.'
  {
    var o := Octets(a);
    var p0, p1, p2, p3 := NatToString(o[0]), NatToString(o[1]), NatToString(o[2]), NatToString(o[3]);
    assert Join([p2, p3], ".") == p2 + "." + p3;
    assert Join([p1, p2, p3], ".") == p1 + "." + (p2 + "." + p3);
    assert Format(a) == p0 + "." + (p1 + "." + (p2 + "." + p3));
  }

  // ---------------------------------------------------------------------------
  // Networks

  lemma {:induction false} Pow2Add(m: nat, n: nat)
    ensures Pow2(m + n) == Pow2(m) * Pow2(n)
    decreases m
  {
    if m > 0 {
      Pow2Add(m - 1, n);
    }
  }

  lemma Pow2ThirtyTwo()
    ensures Pow2(32) == AddressSpace
  {
    assert Pow2(2) == 4;
    Pow2Add(2, 2);
    Pow2Add(4, 4);
    Pow2Add(8, 8);
    Pow2Add(16, 16);
  }

  /** Number of addresses in a network with this prefix length: 2^(32 - prefix). */
  function Size(prefix: nat): (n: nat)
    requires prefix <= 32
    ensures 1 <= n <= AddressSpace
  {
    SizeTimesHosts(prefix);
    Pow2(32 - prefix)
  }

  /** 2^prefix networks of Size(prefix) addresses tile the address space. */
  lemma SizeTimesHosts(prefix: nat)
    requires prefix <= 32
    ensures Pow2(32 - prefix) * Pow2(prefix) == AddressSpace
  {
    Pow2Add(32 - prefix, prefix);
    Pow2ThirtyTwo();
  }

  /** A network with a nonzero prefix covers at most half the address space. */
  lemma SizeAtMostHalf(prefix: nat)
    requires 1 <= prefix <= 32
    ensures 2 * Size(prefix) <= AddressSpace
  {
    SizeTimesHosts(prefix);
    assert Pow2(prefix) >= 2;
    MulMono(2, Pow2(prefix), Size(prefix));
  }

  /** The netmask as a number: `prefix` one bits followed by zero bits. */
  function MaskValue(prefix: nat): (m: Address)
    requires prefix <= 32
    ensures m + Size(prefix) == AddressSpace
  {
    AddressSpace - Size(prefix)
  }

  lemma MulAtLeast(k: int, d: int)
    requires k >= 1 && d > 0
    ensures k * d >= d
  {
  }

  lemma MulSucc(v: int, w: int)
    ensures (v + 1) * w == v * w + w
  {
  }

  lemma DivMod(a: int, d: int)
    requires d > 0
    ensures a == (a / d) * d + a % d && 0 <= a % d < d
  {
  }

  lemma MulMono(x: int, y: int, d: int)
    requires 0 <= x <= y && d >= 0
    ensures x * d <= y * d
  {
  }

  /** Euclidean division is unique. */
  lemma DivModUnique(a: int, d: int, q: int, r: int)
    requires d > 0 && 0 <= r < d && a == q * d + r
    ensures a / d == q && a % d == r
  {
    var q', r' := a / d, a % d;
    assert a == q' * d + r';
    assert (q - q') * d == r' - r;
    if q > q' {
      MulAtLeast(q - q', d);
    } else if q < q' {
      MulAtLeast(q' - q, d);
    }
  }

  /** `ip.Mask(mask)`: the address with its host bits cleared. */
  function Network(a: Address, prefix: nat): (n: Address)
    requires prefix <= 32
    ensures n <= a < n + Size(prefix)
    ensures n % Size(prefix) == 0
  {
    var size := Size(prefix);
    RoundDown(a, size);
    a - a % size
  }

  /** Rounding down to a multiple of `d` stays within `d` below. */
  lemma RoundDown(a: int, d: int)
    requires a >= 0 && d > 0
    ensures 0 <= a - a % d <= a < a - a % d + d && (a - a % d) % d == 0
  {
    DivMod(a, d);
    DivModUnique(a - a % d, d, a / d, 0);
  }

  /** `net.IPNet.Contains`: the address masked equals the network. */
  predicate Contains(network: Address, prefix: nat, a: Address)
    requires prefix <= 32
  {
    Network(a, prefix) == network
  }

  /** An aligned network fits below 2^32. */
  lemma AlignedFits(network: Address, prefix: nat)
    requires prefix <= 32 && network % Size(prefix) == 0
    ensures network + Size(prefix) <= AddressSpace
  {
    SizeTimesHosts(prefix);
    BlockFits(network, Size(prefix), Pow2(prefix), AddressSpace);
  }

  /** A multiple of `size` below `size * hosts` leaves room for one more block. */
  lemma BlockFits(start: nat, size: nat, hosts: nat, space: nat)
    requires size >= 1 && size * hosts == space && start < space && start % size == 0
    ensures start + size <= space
  {
    DivMod(start, size);
    var q := start / size;
    assert start == q * size;
    assert q < hosts by {
      if q >= hosts {
        MulMono(hosts, q, size);
      }
    }
    MulMono(q + 1, hosts, size);
    MulSucc(q, size);
  }

  /** For an aligned network, containment is the address range
      `[network, network + Size(prefix))`. */
  lemma ContainsRange(network: Address, prefix: nat, a: Address)
    requires prefix <= 32 && network % Size(prefix) == 0
    ensures Contains(network, prefix, a) <==> network <= a < network + Size(prefix)
  {
    var size := Size(prefix);
    if network <= a < network + size {
      DivMod(network, size);
      DivModUnique(a, size, network / size, a - network);
      assert Network(a, prefix) == a - a % size;
    }
  }

  /** A network's address is its own network. */
  lemma NetworkIdempotent(a: Address, prefix: nat)
    requires prefix <= 32
    ensures Network(Network(a, prefix), prefix) == Network(a, prefix)
  {
  }

  // ---------------------------------------------------------------------------
  // In-place increment

  /** Carrying one into `p + [x] + 255...255` gives `p + [x + 1] + 0...0`. */
  lemma IncrementCarry(p: seq<Byte>, x: Byte, k: nat)
    requires x < 255
    ensures Value(p + [x + 1] + Zeros(k)) == Value(p + [x] + Ones(k)) + 1
  {
    ValueConcat(p + [x + 1], Zeros(k));
    ValueZeros(k);
    ValueConcat(p + [x], Ones(k));
    ValueOnes(k);
    LastByteSucc(p, x);
    CarryArith(Value(p + [x + 1]), Value(p + [x]), Pow256(k));
  }

  lemma CarryArith(u: int, v: int, w: int)
    requires u == v + 1
    ensures u * w + 0 == v * w + (w - 1) + 1
  {
  }

  /** Adding one to the last byte adds one to the value. */
  lemma LastByteSucc(p: seq<Byte>, x: Byte)
    requires x < 255
    ensures Value(p + [x + 1]) == Value(p + [x]) + 1
  {
  }

  /** The allocator's step: add one to a big-endian byte string in place,
      carrying into the next byte up while a byte wraps from 255 to 0; the
      largest value wraps to zero. */
  method Increment(ip: array<Byte>)
    modifies ip
    ensures Value(old(ip[..])) + 1 < Pow256(ip.Length) ==> Value(ip[..]) == Value(old(ip[..])) + 1
    ensures Value(old(ip[..])) + 1 == Pow256(ip.Length) ==> Value(ip[..]) == 0
  {
    ghost var was := ip[..];
    var j := ip.Length - 1;
    while j >= 0
      invariant -1 <= j < ip.Length
      invariant ip[..j + 1] == was[..j + 1]
      invariant ip[j + 1..] == Zeros(ip.Length - 1 - j)
      invariant was[j + 1..] == Ones(ip.Length - 1 - j)
    {
      var b := ip[j];
      ip[j] := (b as int + 1) % 256;
      if ip[j] > 0 {
        CarryStops(ip[..], was, j);
        ValueBound(ip[..]);
        return;
      }
      CarryGoesOn(ip[..], was, j);
      j := j - 1;
    }
    WrapAround(ip[..], was);
  }

  /** Every byte wrapped: the value went from the largest to zero. */
  lemma WrapAround(now: seq<Byte>, was: seq<Byte>)
    requires |now| == |was| && now[0..] == Zeros(|now|) && was[0..] == Ones(|was|)
    ensures Value(now) == 0 && Value(was) + 1 == Pow256(|was|)
  {
  }

  /** The carry stops at a byte below 255: the value went up by one. */
  lemma CarryStops(now: seq<Byte>, was: seq<Byte>, j: nat)
    requires |now| == |was| && j < |now| && now[..j] == was[..j]
    requires was[j] < 255 && now[j] == was[j] + 1
    requires now[j + 1..] == Zeros(|now| - 1 - j) && was[j + 1..] == Ones(|now| - 1 - j)
    ensures Value(now) == Value(was) + 1
  {
    var p, x, k := was[..j], was[j], |now| - 1 - j;
    assert now == p + [x + 1] + Zeros(k);
    assert was == p + [x] + Ones(k);
    IncrementCarry(p, x, k);
  }

  /** A byte at 255 wraps to 0 and the carry moves one byte up. */
  lemma CarryGoesOn(now: seq<Byte>, was: seq<Byte>, j: nat)
    requires |now| == |was| && j < |now| && now[j] == 0 && was[j] == 255
    requires now[j + 1..] == Zeros(|now| - 1 - j) && was[j + 1..] == Ones(|now| - 1 - j)
    ensures now[j..] == Zeros(|now| - j) && was[j..] == Ones(|now| - j)
  {
  }

  // ---------------------------------------------------------------------------
  // The allocator's special addresses

  /** The fallback gateway: the network address with its last byte
      incremented, wrapping inside that byte without a carry. */
  function FallbackGateway(network: Address): (g: Address)
    ensures network % 256 < 255 ==> g == network + 1
    ensures network % 256 == 255 ==> g == network - 255
  {
    var o := Octets(network);
    var g := FromOctets(o[..3] + [(o[3] as int + 1) % 256]);
    assert o == o[..3] + [o[3]];
    assert (o[..3] + [(o[3] as int + 1) % 256])[..3] == o[..3];
    assert Value(Octets(g)) == Value(o[..3]) * 256 + (o[3] as int + 1) % 256;
    g
  }

  /** The bytes `^mask[j]` the allocator compares each address byte with. */
  function ComplementMask(prefix: nat): (c: seq<Byte>)
    requires prefix <= 32
    ensures |c| == 4 && Value(c) == Size(prefix) - 1
  {
    var m := Octets(MaskValue(prefix));
    ValueComplement(m);
    Pow256Four();
    Complement(m)
  }

  /** The allocator's broadcast test as written (it compares all four
      bytes): the address is exactly the complement of the mask, which is
      the last address of the network only when the network is 0.0.0.0. */
  predicate FlaggedBroadcast(a: Address, prefix: nat)
    requires prefix <= 32
  {
    Octets(a) == ComplementMask(prefix)
  }

  /** The test flags exactly one address: 2^(32 - prefix) - 1. */
  lemma FlaggedBroadcastIff(a: Address, prefix: nat)
    requires prefix <= 32
    ensures FlaggedBroadcast(a, prefix) <==> a == Size(prefix) - 1
  {
    if a == Size(prefix) - 1 {
      ValueInjective(Octets(a), ComplementMask(prefix));
    }
  }

  /** In a network other than 0.0.0.0 no address is flagged, so the real
      broadcast address (the last one) is not skipped; in the network
      0.0.0.0 the flagged address is the last one. */
  lemma FlaggedOnlyInZeroNetwork(network: Address, prefix: nat, a: Address)
    requires prefix <= 32 && network % Size(prefix) == 0 && Contains(network, prefix, a)
    ensures FlaggedBroadcast(a, prefix) <==> network == 0 && a == network + Size(prefix) - 1
  {
    var size := Size(prefix);
    FlaggedBroadcastIff(a, prefix);
    ContainsRange(network, prefix, a);
    if 0 < network < size {
      DivModUnique(network, size, 0, network);
    }
  }
}
