/**
 * The rate limiter's configuration in index.js: the fixed exclusion list, the
 * `skip` callback that picks the client address and exempts excluded clients,
 * and the window and maximum handed to the limiter.
 */
module RateLimit {
  import opened Wrappers
  import opened JsStrings
  import opened JsNumbers
  import opened IpRanges

  /** The addresses and blocks that are never rate limited. */
  const ExcludedIpRanges: seq<string> := ["95.99.68.87", "192.168.222.0/24", "127.0.0.1"]

  /** The error body of a throttled request. */
  const TooManyRequestsMessage: string := "Too many requests. Please try again later."

  /** The limiter's window: fifteen minutes, in milliseconds. */
  const WindowMs: nat := 15 * 60 * 1000

  /** The maximum used when `RATE_LIMIT_MAX` gives no usable number. */
  const DefaultMax: int := 5

  /**
   * `req.headers['x-forwarded-for']?.split(',')[0] || req.ip`: the header's text
   * before its first comma, untrimmed, unless the header is absent or that text
   * is empty, in which case the connection's peer address.
   */
  function ClientIp(forwardedFor: Option<string>, peer: string): (ip: string)
    ensures || ip == peer
            || (forwardedFor.Some? && ip != "" && ip <= forwardedFor.value && ',' !in ip)
  {
    match forwardedFor
    case None => peer
    case Some(header) =>
      var first := Split(header, ',')[0];
      SplitFirst(header, ',');
      if first == "" then peer else first
  }

  /** Whether a client address is on the exclusion list; only a well-formed address can be. */
  predicate IsExcluded(clientIp: string)
    ensures IsExcluded(clientIp) ==> ParseIPv4(clientIp).Some?
  {
    IpRangeCheck(clientIp, ExcludedIpRanges)
  }

  /**
   * The limiter's `skip` callback: true exactly for excluded clients, so only a
   * client address that is a well-formed IPv4 address can be exempt.
   */
  predicate Skip(forwardedFor: Option<string>, peer: string)
    ensures Skip(forwardedFor, peer) ==> ParseIPv4(ClientIp(forwardedFor, peer)).Some?
  {
    IsExcluded(ClientIp(forwardedFor, peer))
  }

  /**
   * How JavaScript renders an environment variable that may be unset: its own
   * text, or "undefined", in which `parseInt` finds no number.
   */
  function EnvText(v: Option<string>): (s: string)
    ensures v.Some? ==> s == v.value
    ensures v.None? ==> ParseInt(s) == NaN
  {
    match v
    case None =>
      ParseIntNaNAtStart("undefined");
      "undefined"
    case Some(s) => s
  }

  /** `parseInt(process.env.RATE_LIMIT_MAX, 10) || 5`. */
  function MaxRequests(rateLimitMax: Option<string>): (max: int)
    ensures max != 0
  {
    OrElse(ParseInt(EnvText(rateLimitMax)), DefaultMax)
  }

  /** The options object passed to the limiter (the `skip` callback is `Skip`). */
  datatype LimiterConfig = LimiterConfig(windowMs: nat, max: int, message: string)

  function Limiter(rateLimitMax: Option<string>): (c: LimiterConfig)
    ensures c.windowMs == 900000
    ensures c.max == MaxRequests(rateLimitMax)
    ensures c.message == "Too many requests. Please try again later."
  {
    LimiterConfig(WindowMs, MaxRequests(rateLimitMax), TooManyRequestsMessage)
  }

  /**
   * The client address is the header's first field when that is non-empty
   * and the peer address otherwise.
   */
  lemma ClientIpChoice(forwardedFor: Option<string>, peer: string, first: string)
    requires forwardedFor.Some? && IsFirstField(forwardedFor.value, ',', first)
    ensures ClientIp(forwardedFor, peer) == (if first == "" then peer else first)
  {
    SplitFirst(forwardedFor.value, ',');
    FirstFieldUnique(forwardedFor.value, ',', first, Split(forwardedFor.value, ',')[0]);
  }

  /** Without the header, the peer address is the client address. */
  lemma ClientIpWithoutHeader(peer: string)
    ensures ClientIp(None, peer) == peer
  {
  }

  /** The exclusion list, read as addresses: two single addresses and the block 192.168.222.0/24. */
  lemma ExcludedAddresses(ip: string)
    ensures IsExcluded(ip) <==>
      && ParseIPv4(ip).Some?
      && var x := ParseIPv4(ip).value;
         x == IPv4(95, 99, 68, 87) || x == IPv4(127, 0, 0, 1) || (x.a == 192 && x.b == 168 && x.c == 222)
  {
    ListOfThree(ip, ExcludedIpRanges);
    MatchesFirst(ip);
    MatchesBlock(ip);
    MatchesLoopback(ip);
  }

  /** The exclusion list holds exactly these texts: two addresses and the 256 addresses of 192.168.222.0/24. */
  lemma ExcludedExactly(ip: string)
    ensures IsExcluded(ip) <==>
      || ip == "95.99.68.87"
      || ip == "127.0.0.1"
      || exists x: Octet :: ip == "192.168.222." + NatDecimal(x)
  {
    ExcludedAddresses(ip);
    FirstText();
    LoopbackText();
    ParseIPv4Iff(ip, IPv4(95, 99, 68, 87));
    ParseIPv4Iff(ip, IPv4(127, 0, 0, 1));
    if ParseIPv4(ip).Some? {
      var x := ParseIPv4(ip).value;
      if x.a == 192 && x.b == 168 && x.c == 222 {
        assert x == IPv4(192, 168, 222, x.d);
        FormatParse(ip);
        BlockText(x.d);
      }
    }
    forall x: Octet | ip == "192.168.222." + NatDecimal(x)
      ensures IsExcluded(ip)
    {
      BlockText(x);
      ParseFormat(IPv4(192, 168, 222, x));
    }
  }

  /** Every address of 192.168.222.0/24 is excluded. */
  lemma BlockMemberExcluded(x: Octet)
    ensures IsExcluded("192.168.222." + NatDecimal(x))
  {
    ExcludedExactly("192.168.222." + NatDecimal(x));
  }

  /** The neighbouring block is not: 192.168.223.1 is rate limited. */
  lemma NeighbourNotExcluded()
    ensures !IsExcluded("192.168.223.1")
  {
    var ip := "192.168.223.1";
    ExcludedExactly(ip);
    assert |ip| != |"95.99.68.87"| && |ip| != |"127.0.0.1"|;
    OutsideBlock(ip, 10);
  }

  /**
   * The header's first field is not trimmed, so "127.0.0.1 , 10.0.0.1" yields
   * the client address "127.0.0.1 ", which is not excluded.
   */
  lemma UntrimmedNotExcluded(peer: string)
    ensures ClientIp(Some("127.0.0.1 , 10.0.0.1"), peer) == "127.0.0.1 "
    ensures !Skip(Some("127.0.0.1 , 10.0.0.1"), peer)
  {
    var header := "127.0.0.1 , 10.0.0.1";
    assert header == "127.0.0.1 " + ", 10.0.0.1";
    ClientIpChoice(Some(header), peer, "127.0.0.1 ");
    TrailingSpaceNotExcluded();
  }

  lemma TrailingSpaceNotExcluded()
    ensures !IsExcluded("127.0.0.1 ")
  {
    var ip := "127.0.0.1 ";
    ExcludedExactly(ip);
    assert |ip| != |"95.99.68.87"| && |ip| != |"127.0.0.1"|;
    OutsideBlock(ip, 1);
  }

  /** Only the first hop counts: a proxied request from elsewhere is limited even if a later hop is excluded. */
  lemma FirstHopDecides(peer: string)
    ensures ClientIp(Some("203.0.113.7, 127.0.0.1"), peer) == "203.0.113.7"
  {
    var header := "203.0.113.7, 127.0.0.1";
    assert header == "203.0.113.7" + ", 127.0.0.1";
    ClientIpChoice(Some(header), peer, "203.0.113.7");
  }

  /** A header that starts with a comma falls back to the peer address. */
  lemma EmptyFirstFieldUsesPeer(peer: string, rest: string)
    ensures ClientIp(Some("," + rest), peer) == peer
  {
    ClientIpChoice(Some("," + rest), peer, "");
  }

  /** IPv6 loopback is not rewritten to 127.0.0.1, so "::1" is not excluded. */
  lemma Ipv6LoopbackNotExcluded()
    ensures !IsExcluded("::1")
  {
    var ip := "::1";
    ExcludedExactly(ip);
    assert |ip| != |"95.99.68.87"| && |ip| != |"127.0.0.1"|;
    OutsideBlock(ip, 0);
  }

  /** A configured number other than zero is the maximum. */
  lemma MaxFromNumber(s: string, ws: string, sign: string, digits: string, rest: string)
    requires IsNumericForm(s, ws, sign, digits, rest)
    requires SignedValue(sign, digits) != 0
    ensures MaxRequests(Some(s)) == SignedValue(sign, digits)
  {
    ParseIntOfNumericForm(s, ws, sign, digits, rest);
  }

  /** A configured zero gives the default of 5, because 0 is falsy. */
  lemma MaxFromZero(s: string, ws: string, sign: string, digits: string, rest: string)
    requires IsNumericForm(s, ws, sign, digits, rest)
    requires SignedValue(sign, digits) == 0
    ensures MaxRequests(Some(s)) == 5
  {
    ParseIntOfNumericForm(s, ws, sign, digits, rest);
  }

  /** A setting with no number in it gives the default of 5, because NaN is falsy. */
  lemma MaxWithoutNumber(s: string)
    requires forall ws, sign, digits, rest :: !IsNumericForm(s, ws, sign, digits, rest)
    ensures MaxRequests(Some(s)) == 5
  {
    ParseIntNaN(s);
  }

  /** An unset variable reads as "undefined", which is not a number: the default of 5. */
  lemma MaxWhenUnset()
    ensures MaxRequests(None) == 5
  {
    ParseIntNaNAtStart("undefined");
  }

  /** Any non-zero integer written in decimal is taken as the maximum. */
  lemma MaxRoundTrip(n: int)
    requires n != 0
    ensures MaxRequests(Some(Decimal(n))) == n
  {
    ParseIntDecimal(n);
  }

  lemma FirstText()
    ensures FormatIPv4(IPv4(95, 99, 68, 87)) == "95.99.68.87"
  {
    FormatIPv4Fields(IPv4(95, 99, 68, 87));
    FirstOctets();
  }

  lemma FirstOctets()
    ensures NatDecimal(95) == "95" && NatDecimal(99) == "99" && NatDecimal(68) == "68" && NatDecimal(87) == "87"
  {
  }

  lemma LoopbackText()
    ensures FormatIPv4(IPv4(127, 0, 0, 1)) == "127.0.0.1"
  {
    FormatIPv4Fields(IPv4(127, 0, 0, 1));
    LoopbackOctets();
  }

  lemma LoopbackOctets()
    ensures NatDecimal(127) == "127" && NatDecimal(0) == "0" && NatDecimal(1) == "1"
  {
  }

  /** The text of the address 192.168.222.x. */
  lemma BlockText(x: Octet)
    ensures FormatIPv4(IPv4(192, 168, 222, x)) == "192.168.222." + NatDecimal(x)
  {
    FormatIPv4Fields(IPv4(192, 168, 222, x));
    BlockOctets();
    BlockPrefix();
  }

  lemma BlockPrefix()
    ensures "192" + "." + "168" + "." + "222" + "." == "192.168.222."
  {
  }

  lemma BlockOctets()
    ensures NatDecimal(192) == "192" && NatDecimal(168) == "168" && NatDecimal(222) == "222"
  {
    OctetText(192, "192");
    OctetText(168, "168");
    OctetText(222, "222");
  }

  lemma OctetText(n: nat, s: string)
    requires 100 <= n < 1000 && s == [DigitChar(n / 100), DigitChar(n / 10 % 10), DigitChar(n % 10)]
    ensures NatDecimal(n) == s
  {
    assert NatDecimal(n / 10) == [DigitChar(n / 100), DigitChar(n / 10 % 10)];
  }

  lemma FirstEntry()
    ensures ParseRange(ExcludedIpRanges[0]) == Some(Address(IPv4(95, 99, 68, 87)))
  {
    FirstText();
    AddressEntry(ExcludedIpRanges[0], IPv4(95, 99, 68, 87));
  }

  lemma LoopbackEntry()
    ensures ParseRange(ExcludedIpRanges[2]) == Some(Address(IPv4(127, 0, 0, 1)))
  {
    LoopbackText();
    AddressEntry(ExcludedIpRanges[2], IPv4(127, 0, 0, 1));
  }

  lemma BlockEntry()
    ensures ParseRange(ExcludedIpRanges[1]) == Some(Block(IPv4(192, 168, 222, 0), 24))
  {
    BlockText(0);
    LoopbackOctets();
    assert ExcludedIpRanges[1] == FormatIPv4(IPv4(192, 168, 222, 0)) + "/" + "24";
    assert DigitsValue("24") == 24;
    BlockEntryOf(ExcludedIpRanges[1], IPv4(192, 168, 222, 0), "24");
  }

  lemma ListOfThree(ip: string, ranges: seq<string>)
    requires |ranges| == 3
    ensures IpRangeCheck(ip, ranges) <==>
      MatchesEntry(ip, ranges[0]) || MatchesEntry(ip, ranges[1]) || MatchesEntry(ip, ranges[2])
  {
    var r := IpRangeCheck(ip, ranges);
    if r {
      var i :| 0 <= i < |ranges| && MatchesEntry(ip, ranges[i]);
      assert i == 0 || i == 1 || i == 2;
    }
  }

  lemma MatchesFirst(ip: string)
    ensures MatchesEntry(ip, ExcludedIpRanges[0]) <==> ParseIPv4(ip) == Some(IPv4(95, 99, 68, 87))
  {
    FirstEntry();
  }

  lemma MatchesLoopback(ip: string)
    ensures MatchesEntry(ip, ExcludedIpRanges[2]) <==> ParseIPv4(ip) == Some(IPv4(127, 0, 0, 1))
  {
    LoopbackEntry();
  }

  lemma MatchesBlock(ip: string)
    ensures MatchesEntry(ip, ExcludedIpRanges[1]) <==>
      ParseIPv4(ip).Some? && ParseIPv4(ip).value.a == 192 && ParseIPv4(ip).value.b == 168 && ParseIPv4(ip).value.c == 222
  {
    BlockEntry();
    if ParseIPv4(ip).Some? {
      InBlock24(ParseIPv4(ip).value, IPv4(192, 168, 222, 0));
    }
  }

  /** A text that differs from "192.168.222." at some position of it is no address of the block. */
  lemma OutsideBlock(ip: string, k: nat)
    requires k < |ip| && k < |"192.168.222."| && ip[k] != "192.168.222."[k]
    ensures forall x: Octet :: ip != "192.168.222." + NatDecimal(x)
  {
    forall x: Octet
      ensures ip != "192.168.222." + NatDecimal(x)
    {
      assert ("192.168.222." + NatDecimal(x))[k] == "192.168.222."[k];
    }
  }
}
