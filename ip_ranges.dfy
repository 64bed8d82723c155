/**
 * A stand-in for the `ip-range-check` library that index.js calls: an address
 * matches a list of ranges when it matches one of them, a range being either a
 * single IPv4 address or an IPv4 CIDR block ("a.b.c.d/n", the prefix notation
 * of section 3.1 of RFC 4632). Addresses are the canonical dotted-decimal form.
 */
module IpRanges {
  import opened Wrappers
  import opened JsStrings
  import opened JsNumbers

  type Octet = x: int | 0 <= x < 256

  /** An IPv4 address, most significant octet first. */
  datatype IPv4 = IPv4(a: Octet, b: Octet, c: Octet, d: Octet)

  /** The number of leading bits a CIDR block fixes. */
  type PrefixLength = n: int | 0 <= n <= 32

  /** A range entry: one address, or every address sharing a prefix with a network address. */
  datatype Range = Address(ip: IPv4) | Block(network: IPv4, prefixLength: PrefixLength)

  /** The address as a 32-bit number. */
  function Value(ip: IPv4): (v: nat)
    ensures v < 0x1_0000_0000
  {
    ip.a * 0x100_0000 + ip.b * 0x1_0000 + ip.c * 0x100 + ip.d
  }

  function Pow2(n: nat): (p: nat)
    ensures p >= 1
  {
    if n == 0 then 1 else 2 * Pow2(n - 1)
  }

  /** One dotted-decimal component: canonical digits with a value below 256. */
  function ParseOctet(s: string): (o: Option<Octet>)
    ensures o.Some? ==> NatDecimal(o.value) == s
  {
    if IsCanonical(s) && DigitsValue(s) < 256 then
      CanonicalIsNatDecimal(s);
      Some(DigitsValue(s))
    else None
  }

  /** Exactly four dot-separated octets; an accepted text holds only digits and dots. */
  function ParseIPv4(s: string): (r: Option<IPv4>)
    ensures r.Some? ==> forall i :: 0 <= i < |s| ==> IsDigit(s[i]) || s[i] == '.'
  {
    var parts := Split(s, '.');
    if |parts| != 4 then None
    else
      match (ParseOctet(parts[0]), ParseOctet(parts[1]), ParseOctet(parts[2]), ParseOctet(parts[3]))
      case (Some(a), Some(b), Some(c), Some(d)) =>
        JoinOfDigits(parts, '.');
        Some(IPv4(a, b, c, d))
      case _ => None
  }

  /** The canonical dotted-decimal text of an address: digits and dots only. */
  function FormatIPv4(ip: IPv4): (t: string)
    ensures forall i :: 0 <= i < |t| ==> IsDigit(t[i]) || t[i] == '.'
  {
    var p := [NatDecimal(ip.a), NatDecimal(ip.b), NatDecimal(ip.c), NatDecimal(ip.d)];
    JoinOfDigits(p, '.');
    Join(p, '.')
  }

  /** "a.b.c.d" for a single address, "a.b.c.d/n" with 0 <= n <= 32 for a block. */
  function ParseRange(r: string): (range: Option<Range>)
    ensures range.Some? ==> (range.value.Block? <==> '/' in r)
  {
    if '/' in r then
      var parts := Split(r, '/');
      if |parts| == 2 && IsDigitRun(parts[1]) && DigitsValue(parts[1]) <= 32 then
        match ParseIPv4(parts[0])
        case Some(network) => Some(Block(network, DigitsValue(parts[1])))
        case None => None
      else None
    else
      match ParseIPv4(r)
      case Some(ip) => Some(Address(ip))
      case None => None
  }

  /**
   * Membership: the address itself, or the same leading `prefixLength` bits as
   * the network. Every range holds its own address.
   */
  predicate InRange(ip: IPv4, range: Range)
    ensures ip == (match range case Address(x) => x case Block(network, _) => network) ==> InRange(ip, range)
  {
    match range
    case Address(x) => ip == x
    case Block(network, n) => Value(ip) / Pow2(32 - n) == Value(network) / Pow2(32 - n)
  }

  /** One entry of the list: false when either the address or the entry does not parse. */
  predicate MatchesEntry(addr: string, entry: string)
    ensures MatchesEntry(addr, entry) ==> ParseIPv4(addr).Some? && ParseRange(entry).Some?
  {
    match (ParseIPv4(addr), ParseRange(entry))
    case (Some(ip), Some(range)) => InRange(ip, range)
    case _ => false
  }

  /** `ipRangeCheck(addr, ranges)`: does the address match some entry of the list? */
  function IpRangeCheck(addr: string, ranges: seq<string>): (r: bool)
    ensures r <==> exists i :: 0 <= i < |ranges| && MatchesEntry(addr, ranges[i])
    decreases |ranges|
  {
    if ranges == [] then false
    else if MatchesEntry(addr, ranges[0]) then true
    else
      var r := IpRangeCheck(addr, ranges[1..]);
      assert forall i :: 1 <= i < |ranges| ==> ranges[i] == ranges[1..][i - 1];
      r
  }

  /** The text of an address, written out field by field. */
  lemma FormatIPv4Fields(ip: IPv4)
    ensures FormatIPv4(ip)
      == NatDecimal(ip.a) + "." + NatDecimal(ip.b) + "." + NatDecimal(ip.c) + "." + NatDecimal(ip.d)
  {
    JoinFour(NatDecimal(ip.a), NatDecimal(ip.b), NatDecimal(ip.c), NatDecimal(ip.d), '.');
  }

  lemma JoinFour(a: string, b: string, c: string, d: string, sep: char)
    ensures Join([a, b, c, d], sep) == a + [sep] + b + [sep] + c + [sep] + d
  {
    var p := [a, b, c, d];
    assert p[1..][1..][1..] == [d];
    assert p[1..][1..] == [c, d];
    assert p[1..] == [b, c, d];
    assert Join(p[1..][1..], sep) == c + [sep] + d;
    assert Join(p[1..], sep) == b + [sep] + (c + [sep] + d);
    assert Join(p, sep) == a + [sep] + (b + [sep] + (c + [sep] + d));
  }

  /** Formatting an address and parsing it back gives the address. */
  lemma ParseFormat(ip: IPv4)
    ensures ParseIPv4(FormatIPv4(ip)) == Some(ip)
  {
    var p := [NatDecimal(ip.a), NatDecimal(ip.b), NatDecimal(ip.c), NatDecimal(ip.d)];
    NoDotsInParts(p);
    SplitJoin(p, '.');
  }

  lemma NoDotsInParts(p: seq<string>)
    requires forall i :: 0 <= i < |p| ==> AllDigits(p[i])
    ensures forall i :: 0 <= i < |p| ==> '.' !in p[i]
  {
    forall i | 0 <= i < |p|
      ensures '.' !in p[i]
    {
      NoDotInDigits(p[i]);
    }
  }

  /** Every character of a join of digit strings is a digit or the separator. */
  lemma JoinOfDigits(parts: seq<string>, sep: char)
    requires forall k :: 0 <= k < |parts| ==> AllDigits(parts[k])
    ensures forall i :: 0 <= i < |Join(parts, sep)| ==> IsDigit(Join(parts, sep)[i]) || Join(parts, sep)[i] == sep
  {
    forall i | 0 <= i < |Join(parts, sep)|
      ensures IsDigit(Join(parts, sep)[i]) || Join(parts, sep)[i] == sep
    {
      JoinChars(parts, sep, i);
    }
  }

  lemma NoDotInDigits(s: string)
    requires AllDigits(s)
    ensures '.' !in s
  {
  }

  /** A string that parses as an address is that address's canonical text. */
  lemma FormatParse(s: string)
    requires ParseIPv4(s).Some?
    ensures FormatIPv4(ParseIPv4(s).value) == s
  {
    var parts := Split(s, '.');
    var ip := ParseIPv4(s).value;
    assert [NatDecimal(ip.a), NatDecimal(ip.b), NatDecimal(ip.c), NatDecimal(ip.d)] == parts;
  }

  /** `ParseIPv4` and `FormatIPv4` are inverse bijections between canonical texts and addresses. */
  lemma ParseIPv4Iff(s: string, ip: IPv4)
    ensures ParseIPv4(s) == Some(ip) <==> s == FormatIPv4(ip)
  {
    if ParseIPv4(s) == Some(ip) {
      FormatParse(s);
    }
    if s == FormatIPv4(ip) {
      ParseFormat(ip);
    }
  }

  /** Distinct addresses have distinct 32-bit values. */
  lemma ValueInjective(x: IPv4, y: IPv4)
    requires Value(x) == Value(y)
    ensures x == y
  {
    assert x.a < y.a ==> Value(x) < (x.a + 1) * 0x100_0000 <= Value(y);
    assert y.a < x.a ==> Value(y) < (y.a + 1) * 0x100_0000 <= Value(x);
    assert x.b < y.b ==> Value(x) < x.a * 0x100_0000 + (x.b + 1) * 0x1_0000 <= Value(y);
    assert y.b < x.b ==> Value(y) < y.a * 0x100_0000 + (y.b + 1) * 0x1_0000 <= Value(x);
    assert x.c < y.c ==> Value(x) < x.a * 0x100_0000 + x.b * 0x1_0000 + (x.c + 1) * 0x100 <= Value(y);
    assert y.c < x.c ==> Value(y) < y.a * 0x100_0000 + y.b * 0x1_0000 + (y.c + 1) * 0x100 <= Value(x);
  }

  /** A /24 block holds exactly the addresses that agree with the network on the first three octets. */
  lemma InBlock24(ip: IPv4, network: IPv4)
    ensures InRange(ip, Block(network, 24)) <==> ip.a == network.a && ip.b == network.b && ip.c == network.c
  {
    assert Pow2(8) == 256;
    var hi := ip.a * 0x1_0000 + ip.b * 0x100 + ip.c;
    var nhi := network.a * 0x1_0000 + network.b * 0x100 + network.c;
    assert Value(ip) / 256 == hi;
    assert Value(network) / 256 == nhi;
    if hi == nhi {
      ValueInjective(IPv4(ip.a, ip.b, ip.c, 0), IPv4(network.a, network.b, network.c, 0));
    }
  }

  /** A /32 block holds its network address only. */
  lemma InBlock32(ip: IPv4, network: IPv4)
    ensures InRange(ip, Block(network, 32)) <==> ip == network
  {
    if Value(ip) == Value(network) {
      ValueInjective(ip, network);
    }
  }

  /** An address's own text is a single-address entry. */
  lemma AddressEntry(r: string, ip: IPv4)
    requires r == FormatIPv4(ip)
    ensures ParseRange(r) == Some(Address(ip))
  {
    ParseFormat(ip);
    assert forall i :: 0 <= i < |r| ==> r[i] != '/';
  }

  /** A network's text, a slash and a prefix length of at most 32 is a block entry. */
  lemma BlockEntryOf(r: string, network: IPv4, prefix: string)
    requires r == FormatIPv4(network) + "/" + prefix
    requires IsDigitRun(prefix) && DigitsValue(prefix) <= 32
    ensures ParseRange(r) == Some(Block(network, DigitsValue(prefix)))
  {
    var text := FormatIPv4(network);
    AddressEntry(text, network);
    NoSlashInDigits(prefix);
    assert r == Join([text, prefix], '/');
    SplitJoin([text, prefix], '/');
    assert r[|text|] == '/';
  }

  lemma NoSlashInDigits(s: string)
    requires AllDigits(s)
    ensures '/' !in s
  {
  }

  /** Every character of a join of digit strings is a digit or the separator. */
  lemma {:induction false} JoinChars(parts: seq<string>, sep: char, i: int)
    requires forall k :: 0 <= k < |parts| ==> AllDigits(parts[k])
    requires 0 <= i < |Join(parts, sep)|
    ensures IsDigit(Join(parts, sep)[i]) || Join(parts, sep)[i] == sep
    decreases |parts|
  {
    if |parts| > 1 {
      var rest := Join(parts[1..], sep);
      assert Join(parts, sep) == parts[0] + [sep] + rest;
      if i > |parts[0]| {
        JoinChars(parts[1..], sep, i - |parts[0]| - 1);
      }
    }
  }
}
