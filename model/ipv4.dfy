// IPv4 addresses and their text, as Go's net package reads and prints them:
// net.ParseIP, net.ParseCIDR, IP.String and IPNet.String, restricted to IPv4.
module IPv4 {
  import opened Wrappers
  import opened Text

  const AddressCount: nat := 0x1_0000_0000

  /** An IPv4 address as a 32-bit number, most significant octet first. */
  type IP = n: nat | n < 0x1_0000_0000

  /** An address with a prefix length, as carried by net.IPNet with a canonical mask. */
  datatype IPNet = IPNet(ip: IP, prefix: nat)

  function Pow2(n: nat): (r: nat)
    ensures r >= 1
  {
    if n == 0 then 1 else 2 * Pow2(n - 1)
  }

  lemma {:induction false} Pow2Monotonic(a: nat, b: nat)
    requires a <= b
    ensures Pow2(a) <= Pow2(b)
    decreases b
  {
    if a < b {
      Pow2Monotonic(a, b - 1);
    }
  }

  /** `a` rounded down to a multiple of `m`. */
  function RoundDown(a: nat, m: nat): (r: nat)
    requires m > 0
    ensures r <= a && a - r < m
  {
    a - a % m
  }

  /** The network address of `ip` under a prefix of `prefix` bits: host bits cleared. */
  function Network(ip: IP, prefix: nat): (r: IP)
    requires prefix <= 32
    ensures r <= ip && ip - r < Pow2(32 - prefix)
  {
    RoundDown(ip, Pow2(32 - prefix))
  }

  lemma {:induction false} Pow2Add(a: nat, b: nat)
    ensures Pow2(a + b) == Pow2(a) * Pow2(b)
    decreases a
  {
    if a > 0 {
      Pow2Add(a - 1, b);
    }
  }

  lemma MulMonotonic(a: nat, b: nat, c: nat)
    requires a <= b
    ensures a * c <= b * c
  {
  }

  /** Rounding down to a multiple of `m` leaves a whole block of `m` below any multiple of `m` above `a`. */
  lemma RoundDownRoom(a: nat, m: nat, k: nat)
    requires m > 0 && a < m * k
    ensures RoundDown(a, m) + m <= m * k
  {
    var q := a / m;
    assert RoundDown(a, m) == q * m;
    if q >= k {
      MulMonotonic(k, q, m);
      assert false;
    }
    MulMonotonic(q + 1, k, m);
  }

  lemma Pow2Of32()
    ensures Pow2(32) == AddressCount
  {
    assert Pow2(1) == 2;
    Pow2Add(1, 1);
    Pow2Add(2, 2);
    Pow2Add(4, 4);
    Pow2Add(8, 8);
    Pow2Add(16, 16);
  }

  /** A whole block of 2^(32-prefix) addresses fits above the network address. */
  lemma NetworkRoom(ip: IP, prefix: nat)
    requires prefix <= 32
    ensures Network(ip, prefix) + Pow2(32 - prefix) <= AddressCount
  {
    Pow2Add(32 - prefix, prefix);
    Pow2Of32();
    RoundDownRoom(ip, Pow2(32 - prefix), Pow2(prefix));
  }

  function Octet(ip: IP, k: nat): (r: nat)
    requires k < 4
    ensures r < 256
  {
    if k == 0 then ip / 0x100_0000
    else if k == 1 then ip / 0x1_0000 % 256
    else if k == 2 then ip / 0x100 % 256
    else ip % 256
  }

  function FromOctets(a: nat, b: nat, c: nat, d: nat): IP
    requires a < 256 && b < 256 && c < 256 && d < 256
  {
    a * 0x100_0000 + b * 0x1_0000 + c * 0x100 + d
  }

  lemma OctetsRoundTrip(ip: IP)
    ensures FromOctets(Octet(ip, 0), Octet(ip, 1), Octet(ip, 2), Octet(ip, 3)) == ip
  {
  }

  lemma FromOctetsOctets(a: nat, b: nat, c: nat, d: nat)
    requires a < 256 && b < 256 && c < 256 && d < 256
    ensures var ip := FromOctets(a, b, c, d);
      Octet(ip, 0) == a && Octet(ip, 1) == b && Octet(ip, 2) == c && Octet(ip, 3) == d
  {
    var ip := FromOctets(a, b, c, d);
    assert ip / 0x100_0000 == a;
    assert ip / 0x1_0000 == a * 0x100 + b;
    assert (a * 0x100 + b) % 256 == b;
    assert ip / 0x100 == a * 0x1_0000 + b * 0x100 + c;
    assert (a * 0x1_0000 + b * 0x100 + c) % 256 == c;
    assert ip % 256 == d;
  }

  /** IP.String for an IPv4 address: four decimal octets joined by dots. */
  function FormatIP(ip: IP): string {
    Join(OctetTexts(ip), '.')
  }

  function OctetTexts(ip: IP): (fields: seq<string>)
    ensures |fields| == 4
  {
    [NatToDec(Octet(ip, 0)), NatToDec(Octet(ip, 1)), NatToDec(Octet(ip, 2)), NatToDec(Octet(ip, 3))]
  }

  /** IPNet.String: the address, a slash and the prefix length. */
  function FormatCIDR(n: IPNet): string {
    FormatIP(n.ip) + "/" + NatToDec(n.prefix)
  }

  function IndexOf(s: string, c: char): (i: nat)
    requires c in s
    ensures i < |s| && s[i] == c && c !in s[..i]
  {
    if s[0] == c then 0 else 1 + IndexOf(s[1..], c)
  }

  /** strings.Split on one separator character: always at least one field. */
  function Split(s: string, sep: char): (fields: seq<string>)
    ensures |fields| >= 1
    decreases |s|
  {
    if sep in s then
      var i := IndexOf(s, sep);
      [s[..i]] + Split(s[i + 1..], sep)
    else [s]
  }

  function Join(fields: seq<string>, sep: char): string
    requires |fields| >= 1
  {
    if |fields| == 1 then fields[0] else fields[0] + [sep] + Join(fields[1..], sep)
  }

  lemma {:induction false} JoinSplit(s: string, sep: char)
    ensures Join(Split(s, sep), sep) == s
    decreases |s|
  {
    if sep in s {
      var i := IndexOf(s, sep);
      JoinSplit(s[i + 1..], sep);
      assert s == s[..i] + [sep] + s[i + 1..];
    }
  }

  lemma SplitPrefix(a: string, rest: string, sep: char)
    requires sep !in a
    ensures Split(a + [sep] + rest, sep) == [a] + Split(rest, sep)
  {
    var s := a + [sep] + rest;
    assert s[|a|] == sep;
    assert s[..|a|] == a;
    assert IndexOf(s, sep) == |a| by {
      IndexOfPrefix(a, [sep] + rest, sep);
    }
    assert s[|a| + 1..] == rest;
  }

  lemma {:induction false} IndexOfPrefix(a: string, b: string, sep: char)
    requires sep !in a && sep in b
    ensures sep in a + b && IndexOf(a + b, sep) == |a| + IndexOf(b, sep)
    decreases |a|
  {
    assert (a + b)[|a| + IndexOf(b, sep)] == sep;
    if a != [] {
      assert (a + b)[1..] == a[1..] + b;
      IndexOfPrefix(a[1..], b, sep);
    }
  }

  /** A field of a dotted quad as Go accepts it: 1 to 3 digits, no leading zero, at most 255. */
  predicate IsOctetText(f: string) {
    IsDigits(f) && (|f| == 1 || f[0] != '0') && DigitsValue(f) < 256
  }

  /** net.ParseIP restricted to IPv4 text; every other text is rejected. */
  function ParseIP(s: string): (r: Option<IP>) {
    var fs := Split(s, '.');
    if |fs| == 4 && IsOctetText(fs[0]) && IsOctetText(fs[1]) && IsOctetText(fs[2]) && IsOctetText(fs[3])
    then Some(FromOctets(DigitsValue(fs[0]), DigitsValue(fs[1]), DigitsValue(fs[2]), DigitsValue(fs[3])))
    else None
  }

  /**
   * net.ParseCIDR for IPv4: the text before the first slash is an address, the text after
   * it one or more digits (leading zeros allowed) worth at most 32. The result is the
   * address as written and the pool it belongs to, whose address is the network address.
   */
  function ParseCIDR(s: string): (r: Option<(IP, IPNet)>)
    ensures r.Some? ==> r.value.1.prefix <= 32 && r.value.1.ip == Network(r.value.0, r.value.1.prefix)
  {
    if '/' !in s then None
    else
      var i := IndexOf(s, '/');
      var addr := s[..i];
      var mask := s[i + 1..];
      match ParseIP(addr)
      case None => None
      case Some(ip) =>
        if IsDigits(mask) && DigitsValue(mask) <= 32 then
          var prefix := DigitsValue(mask);
          Some((ip, IPNet(Network(ip, prefix), prefix)))
        else None
  }

  /** netlink.ParseAddr: the text read as a CIDR, keeping the address as written (not masked). */
  function ParseAddr(s: string): (r: Option<IPNet>)
    ensures r.Some? ==> r.value.prefix <= 32
  {
    match ParseCIDR(s)
    case None => None
    case Some((ip, net)) => Some(IPNet(ip, net.prefix))
  }

  lemma {:induction false} DigitsValuePositive(f: string)
    requires IsDigits(f) && f[0] != '0'
    ensures DigitsValue(f) > 0
    decreases |f|
  {
    if |f| > 1 {
      DigitsValuePositive(f[..|f| - 1]);
    }
  }

  /** A digit string without a leading zero is the `%d` text of its own value. */
  lemma {:induction false} CanonicalDigits(f: string)
    requires IsDigits(f) && (|f| == 1 || f[0] != '0')
    ensures NatToDec(DigitsValue(f)) == f
    decreases |f|
  {
    var n := DigitsValue(f);
    var c := f[|f| - 1];
    if |f| == 1 {
      assert f[..0] == [];
      assert DigitsValue(f[..0]) == 0;
      assert n == DigitValue(c);
      assert DigitChar(DigitValue(c)) == c;
    } else {
      var g := f[..|f| - 1];
      assert g[0] == f[0];
      DigitsValuePositive(g);
      CanonicalDigits(g);
      assert n == 10 * DigitsValue(g) + DigitValue(c);
      assert n / 10 == DigitsValue(g) && n % 10 == DigitValue(c);
      assert DigitChar(DigitValue(c)) == c;
      assert f == g + [c];
    }
  }

  lemma DecHasNoSeparator(n: nat, sep: char)
    requires !IsDigit(sep)
    ensures sep !in NatToDec(n)
  {
  }

  lemma OctetText(n: nat)
    requires n < 256
    ensures IsOctetText(NatToDec(n)) && DigitsValue(NatToDec(n)) == n
  {
    NatToDecCanonical(n);
    NatToDecValue(n);
  }

  /** Splitting the joined fields gives the fields back when none contains the separator. */
  lemma {:induction false} SplitJoin(fields: seq<string>, sep: char)
    requires |fields| >= 1 && forall i :: 0 <= i < |fields| ==> sep !in fields[i]
    ensures Split(Join(fields, sep), sep) == fields
    decreases |fields|
  {
    if |fields| > 1 {
      var rest := Join(fields[1..], sep);
      assert Join(fields, sep) == fields[0] + [sep] + rest;
      assert sep !in fields[0];
      SplitPrefix(fields[0], rest, sep);
      assert forall i :: 0 <= i < |fields[1..]| ==> sep !in fields[1..][i];
      SplitJoin(fields[1..], sep);
      assert fields == [fields[0]] + fields[1..];
    }
  }

  lemma {:induction false} JoinAvoids(fields: seq<string>, sep: char, c: char)
    requires |fields| >= 1 && c != sep && forall i :: 0 <= i < |fields| ==> c !in fields[i]
    ensures c !in Join(fields, sep)
    decreases |fields|
  {
    if |fields| > 1 {
      JoinAvoids(fields[1..], sep, c);
    }
  }

  lemma OctetTextsAvoid(ip: IP, c: char)
    requires !IsDigit(c)
    ensures forall i :: 0 <= i < 4 ==> c !in OctetTexts(ip)[i]
  {
    DecHasNoSeparator(Octet(ip, 0), c);
    DecHasNoSeparator(Octet(ip, 1), c);
    DecHasNoSeparator(Octet(ip, 2), c);
    DecHasNoSeparator(Octet(ip, 3), c);
  }

  lemma FormatIPFields(ip: IP)
    ensures Split(FormatIP(ip), '.') == OctetTexts(ip)
  {
    OctetTextsAvoid(ip, '.');
    SplitJoin(OctetTexts(ip), '.');
  }

  lemma FormatIPHasNoSlash(ip: IP)
    ensures '/' !in FormatIP(ip)
  {
    OctetTextsAvoid(ip, '/');
    JoinAvoids(OctetTexts(ip), '.', '/');
  }

  /** Printing an address and reading it back gives the same address. */
  lemma ParseFormatIP(ip: IP)
    ensures ParseIP(FormatIP(ip)) == Some(ip)
  {
    FormatIPFields(ip);
    OctetText(Octet(ip, 0));
    OctetText(Octet(ip, 1));
    OctetText(Octet(ip, 2));
    OctetText(Octet(ip, 3));
    OctetsRoundTrip(ip);
  }

  /** Every text ParseIP accepts is the printed form of the address it yields. */
  lemma FormatParsedIP(s: string)
    requires ParseIP(s).Some?
    ensures FormatIP(ParseIP(s).value) == s
  {
    var fs := Split(s, '.');
    var v0, v1, v2, v3 := DigitsValue(fs[0]), DigitsValue(fs[1]), DigitsValue(fs[2]), DigitsValue(fs[3]);
    CanonicalDigits(fs[0]);
    CanonicalDigits(fs[1]);
    CanonicalDigits(fs[2]);
    CanonicalDigits(fs[3]);
    FromOctetsOctets(v0, v1, v2, v3);
    JoinSplit(s, '.');
    assert OctetTexts(ParseIP(s).value) == fs;
  }

  /** Printing a pool entry and reading it back as a CIDR gives the address and prefix back. */
  lemma ParseFormatCIDR(n: IPNet)
    requires n.prefix <= 32
    ensures ParseCIDR(FormatCIDR(n)) == Some((n.ip, IPNet(Network(n.ip, n.prefix), n.prefix)))
    ensures ParseAddr(FormatCIDR(n)) == Some(n)
  {
    var a := FormatIP(n.ip);
    var m := NatToDec(n.prefix);
    var s := FormatCIDR(n);
    FormatIPHasNoSlash(n.ip);
    IndexOfPrefix(a, "/" + m, '/');
    assert s == a + ("/" + m);
    assert IndexOf(s, '/') == |a|;
    assert s[..|a|] == a;
    assert s[|a| + 1..] == m;
    ParseFormatIP(n.ip);
    NatToDecValue(n.prefix);
  }

  /** A CIDR text is never accepted as a bare address. */
  lemma CIDRTextIsNotAnIP(n: IPNet)
    ensures ParseIP(FormatCIDR(n)) == None
  {
    var s := FormatCIDR(n);
    assert s[|FormatIP(n.ip)|] == '/';
    if ParseIP(s).Some? {
      FormatParsedIP(s);
      FormatIPHasNoSlash(ParseIP(s).value);
    }
  }

  /** No text holding a slash, a CIDR text among them, is accepted as a bare address. */
  lemma SlashedTextIsNotAnIP(s: string)
    requires '/' in s
    ensures ParseIP(s) == None
  {
    if ParseIP(s).Some? {
      FormatParsedIP(s);
      FormatIPHasNoSlash(ParseIP(s).value);
    }
  }

  /** The first slash of a printed pool entry separates the address from the prefix length. */
  lemma FormatCIDRParts(n: IPNet)
    ensures '/' in FormatCIDR(n) && IndexOf(FormatCIDR(n), '/') == |FormatIP(n.ip)|
    ensures FormatCIDR(n)[..|FormatIP(n.ip)|] == FormatIP(n.ip)
    ensures FormatCIDR(n)[|FormatIP(n.ip)| + 1..] == NatToDec(n.prefix)
  {
    var f := FormatIP(n.ip);
    var d := NatToDec(n.prefix);
    FormatIPHasNoSlash(n.ip);
    IndexOfPrefix(f, "/" + d, '/');
    assert FormatCIDR(n) == f + ("/" + d);
  }

  /** Distinct pool entries print differently. */
  lemma FormatCIDRInjective(a: IPNet, b: IPNet)
    requires FormatCIDR(a) == FormatCIDR(b)
    ensures a == b
  {
    var s := FormatCIDR(a);
    FormatCIDRParts(a);
    FormatCIDRParts(b);
    assert FormatIP(a.ip) == FormatIP(b.ip);
    ParseFormatIP(a.ip);
    ParseFormatIP(b.ip);
    NatToDecValue(a.prefix);
    NatToDecValue(b.prefix);
  }
}
