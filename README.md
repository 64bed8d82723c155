# suiteproxy in Dafny

A model of the decision logic of `index.js`, a one-route Express proxy in front of
a NetSuite RESTlet. Each request first passes an IP-based rate limiter: clients
whose address is on a fixed exclusion list are never limited. Then the
`GET /suiteproxy` handler validates the `transactionid` query parameter with
JavaScript's `parseInt(…, 10)`. It builds the outbound URL
`RESTLET_URL + "&transactionid=" + <the parsed number>` and relays the backend's
answer (200), or reports a backend failure (500 with the error's message as
`details`).

Everything is pure, as in the source. The rate limiter's counters, the NetSuite
client and the environment are inputs.

| module | file | models |
|---|---|---|
| `Wrappers` | `wrappers.dfy` | `Option`, for values JavaScript may leave `undefined` |
| `JsStrings` | `js_strings.dfy` | `String.prototype.split` with a one-character separator, `Array.prototype.join` |
| `JsNumbers` | `js_numbers.dfy` | `parseInt(s, 10)` (section 19.2.5 of ECMA-262), truthiness and `||` on its result, and `String(n)` for integers |
| `IpRanges` | `ip_ranges.dfy` | a stand-in for `ip-range-check`: IPv4 dotted-decimal addresses and CIDR blocks (section 3.1 of RFC 4632) |
| `RateLimit` | `rate_limit.dfy` | the exclusion list, the `skip` callback, `windowMs` and `max` |
| `SuiteProxy` | `suite_proxy.dfy` | the `/suiteproxy` handler, and the limiter-then-handler pipeline |

The handler's backend is a parameter `backend: string -> BackendReply`. "No
backend call is made" is stated as: the response is the same whatever
`backend` is. `Serve` takes the limiter's own verdict `overLimit` for a counted
request. `RateLimit.Limiter` therefore only records the options index.js
passes to the limiter (window, maximum, message); no verdict in the model
depends on its window or maximum.

`transactionid` is read as the extended (`qs`) query parser of Express 4
delivers it: absent, a string, an array of strings for a repeated parameter,
or an object for a bracketed one. `qs` lets a bracketed key such as
`toString` shadow the inherited method, and then ToString of the object
throws inside the handler's `try`.

## Model

| member | source | states |
|---|---|---|
| JsStrings.Join | index.js:64 | `Array.prototype.join` (used by ToString of a repeated parameter): the text starts with the first piece, and a separator follows it when more pieces come |
| JsStrings.Split | index.js:28 | `split` returns at least one piece; no piece contains the separator; joining the pieces gives the input back |
| JsStrings.SplitFirst | index.js:28 | `s.split(sep)[0]` is the text before the first separator, or all of `s` when there is none |
| JsStrings.SplitJoin | index.js:28 | splitting a join of separator-free pieces gives the same pieces back |
| JsStrings.JoinInjective | index.js:28 | two lists of separator-free pieces with the same join are equal |
| JsNumbers.ParseInt | index.js:64 | `parseInt(s, 10)`: a number only comes from a string that holds a digit (its exact behaviour is pinned down by the three lemmas below) |
| JsNumbers.WhiteSpaceSpan | index.js:64 | `parseInt` skips exactly the longest prefix of white space and line terminators |
| JsNumbers.DigitSpan | index.js:64 | `parseInt` reads exactly the longest run of decimal digits |
| JsNumbers.ParseIntOfNumericForm | index.js:64 | any string made of white space, an optional sign, digits and a rest that does not start with a digit parses to the signed value of those digits |
| JsNumbers.ParseIntHasNumericForm | index.js:64 | every string that parses to a number has that form, with that number as its value |
| JsNumbers.ParseIntNaN | index.js:66 | `parseInt` gives NaN exactly when the string has no such form |
| JsNumbers.ParseIntNaNAtStart | index.js:66 | a string that is empty or starts with neither white space, a sign nor a digit gives NaN |
| JsNumbers.LeadingZerosIgnored | index.js:64 | leading zeros do not change the value of a digit string |
| JsNumbers.NatDecimal | index.js:73 | the text of a natural number is canonical digits (no leading zeros) whose value is that number |
| JsNumbers.CanonicalIsNatDecimal | index.js:73 | every canonical digit string is the text of its own value |
| JsNumbers.ParseIntDecimal | index.js:73 | rendering an integer and parsing it back gives the same integer |
| JsNumbers.Decimal | index.js:73 | `String(n)` in the template: a minus sign exactly for negative n, then canonical digits (no leading zeros) |
| JsNumbers.OrElse | index.js:23 | `n || fallback`: the result is the number itself or the fallback, and never 0 when the fallback is not 0 (NaN and 0 are falsy) |
| JsNumbers.DecimalInjective | index.js:73 | different integers give different texts |
| IpRanges.IpRangeCheck | index.js:29 | an address matches a list exactly when it matches one of its entries |
| IpRanges.ParseIPv4 | index.js:29 | an accepted address text holds only digits and dots |
| IpRanges.FormatIPv4 | index.js:29 | the canonical text of an address holds only digits and dots |
| IpRanges.ParseRange | index.js:18 | a parsed list entry is a CIDR block exactly when it contains a slash, and a single address otherwise |
| IpRanges.InRange | index.js:29 | every range holds its own address (a single address, or a block's network address) |
| IpRanges.MatchesEntry | index.js:29 | an entry matches only when both the address and the entry parse; a malformed one never matches |
| IpRanges.ParseOctet | index.js:29 | an accepted octet is the canonical text of its value |
| IpRanges.ParseFormat | index.js:29 | formatting an address and parsing it back gives the address |
| IpRanges.FormatParse | index.js:29 | a string that parses as an address is that address's canonical text |
| IpRanges.ParseIPv4Iff | index.js:29 | parsing and formatting are inverse bijections between canonical texts and addresses |
| IpRanges.ValueInjective | index.js:29 | distinct addresses have distinct 32-bit values |
| IpRanges.InBlock24 | index.js:18 | a /24 block holds exactly the addresses that share its first three octets |
| IpRanges.InBlock32 | index.js:29 | a /32 block holds its network address only |
| IpRanges.AddressEntry | index.js:18 | an address's own text is a single-address entry of the list |
| IpRanges.BlockEntryOf | index.js:18 | a network's text, a slash and a prefix length of at most 32 is a block entry |
| RateLimit.ClientIp | index.js:28 | the client address is the peer address, or a non-empty, comma-free prefix of `x-forwarded-for` |
| RateLimit.ClientIpWithoutHeader | index.js:28 | without `x-forwarded-for`, the client address is `req.ip` |
| RateLimit.ClientIpChoice | index.js:28 | with the header present, the client address is its first comma-separated field when that is non-empty, and the peer address otherwise |
| RateLimit.FirstHopDecides | index.js:28 | only the first hop counts: `"203.0.113.7, 127.0.0.1"` gives `203.0.113.7` |
| RateLimit.EmptyFirstFieldUsesPeer | index.js:28 | a header that starts with a comma falls back to `req.ip` |
| RateLimit.IsExcluded | index.js:29 | `ipRangeCheck(clientIp, excludedIPRanges)`: only a well-formed IPv4 address can be on the list |
| RateLimit.Skip | index.js:27-31 | the `skip` callback exempts a client only when its chosen address is a well-formed IPv4 address on the list |
| RateLimit.ExcludedAddresses | index.js:18 | an address is excluded exactly when it parses and is 95.99.68.87, 127.0.0.1 or in 192.168.222.0/24 |
| RateLimit.ExcludedExactly | index.js:27-31 | `skip` exempts exactly the texts `95.99.68.87`, `127.0.0.1` and `192.168.222.x` for x from 0 to 255 |
| RateLimit.BlockMemberExcluded | index.js:18 | each of the 256 addresses 192.168.222.x is exempt |
| RateLimit.NeighbourNotExcluded | index.js:18 | 192.168.223.1 is not exempt |
| RateLimit.UntrimmedNotExcluded | index.js:28-31 | the first field is not trimmed: `"127.0.0.1 , 10.0.0.1"` gives `"127.0.0.1 "`, which is not exempt |
| RateLimit.TrailingSpaceNotExcluded | index.js:29 | `"127.0.0.1 "` is not exempt |
| RateLimit.Ipv6LoopbackNotExcluded | index.js:28-29 | `::1` is not rewritten to 127.0.0.1 and is not exempt |
| RateLimit.EnvText | index.js:23 | a set variable is its own text; an unset one renders as "undefined", in which `parseInt` finds no number |
| RateLimit.MaxRequests | index.js:23 | the effective maximum is never 0 |
| RateLimit.MaxFromNumber | index.js:23 | a setting that `parseInt` reads as a non-zero n gives the maximum n |
| RateLimit.MaxFromZero | index.js:23 | a setting read as 0 gives 5 |
| RateLimit.MaxWithoutNumber | index.js:23 | a setting with no number in it gives 5 |
| RateLimit.MaxWhenUnset | index.js:23 | an unset `RATE_LIMIT_MAX` gives 5 |
| RateLimit.MaxRoundTrip | index.js:23 | any non-zero integer written in decimal is taken as the maximum |
| RateLimit.Limiter | index.js:21-26 | the window is 900000 ms, the maximum is `MaxRequests`, and the message is "Too many requests. Please try again later." |
| SuiteProxy.IsPresent | index.js:58 | `!transactionid` is false exactly for a value other than `undefined` and `""` (arrays and objects are truthy) |
| SuiteProxy.ToJsString | index.js:64 | ToString of the query value: it throws exactly for an object whose own `toString` key hides the inherited method; a string converts to itself; an array of comma-free strings converts to a text whose `split(',')` gives the array back |
| SuiteProxy.Validate | index.js:55-73 | a rejection carries the "Missing" or the "Invalid" message, a failure carries the TypeError's message, and every URL starts with `RESTLET_URL + "&transactionid="` |
| SuiteProxy.Handle | index.js:52-89 | the handler answers only with 200, 400 or 500 |
| SuiteProxy.Serve | index.js:36 | a request is answered only with 200, 400, 429 or 500 |
| SuiteProxy.MissingExactly | index.js:58-62 | the "Missing required query parameter" error is given exactly for an absent or empty `transactionid` |
| SuiteProxy.EmptyIsMissingNotInvalid | index.js:58-70 | `""` would not parse either, but the presence check runs first, so it gets the "Missing" message |
| SuiteProxy.InvalidExactly | index.js:64-70 | the "Invalid transactionid" error is given exactly for a present value that converts to a text with no numeric form |
| SuiteProxy.NonNumericIsInvalid | index.js:64-70 | `"abc"` and an array holding one empty string are each invalid |
| SuiteProxy.PlainObjectIsInvalid | index.js:64-70 | an object without its own `toString` key converts to "[object Object]" and is invalid |
| SuiteProxy.ShadowedToStringFails | index.js:53-88 | an object with its own `toString` key (`?transactionid[toString]=1`) makes `parseInt` throw: 500 with "Error communicating with NetSuite RESTlet." and "Cannot convert object to primitive value", whatever the backend |
| SuiteProxy.FetchUrl | index.js:73 | a value of numeric form is relayed to `RESTLET_URL + "&transactionid=" +` the decimal text of its signed value |
| SuiteProxy.FetchCarriesSameNumber | index.js:64-73 | the identifier in every outbound URL is canonical and reads back as the number `parseInt` took from the input |
| SuiteProxy.TrailingTextDropped | index.js:64-73 | `"12abc"` is relayed as `&transactionid=12` |
| SuiteProxy.LeadingZerosDropped | index.js:64-73 | `"007"` is relayed as `&transactionid=7` |
| SuiteProxy.HexPrefixReadsAsZero | index.js:64-73 | `"0x1A"` is relayed as `&transactionid=0`, because radix 10 has no hexadecimal prefix |
| SuiteProxy.RepeatedParameterUsesFirst | index.js:55-73 | a repeated parameter `["5", "6"]` is read through its text `"5,6"` and relayed as 5 |
| SuiteProxy.EarlyExitSkipsBackend | index.js:53-88 | a request that ends before the backend call gets the same response whatever the backend would do: 400 with its error, or 500 with the conversion's TypeError message |
| SuiteProxy.FetchConsultsOnlyUrl | index.js:76-78 | an accepted request depends on the backend only through its reply for the built URL |
| SuiteProxy.HandleOutcomes | index.js:53-88 | 400 exactly on rejection, with its error; 200 exactly on backend success, with the payload unchanged; 500 exactly on a throwing conversion or a backend failure, with "Error communicating with NetSuite RESTlet." and the thrown message as `details` |
| SuiteProxy.ExcludedNeverThrottled | index.js:27-36 | for an exempt client the limiter's verdict does not matter and no 429 is given |
| SuiteProxy.ThrottleExactly | index.js:21-36 | 429 with "Too many requests. Please try again later." is given exactly to a counted client over its limit |

## Left out

- Express setup, CORS, body parsing, `dotenv`, `app.listen` and the logging calls (index.js:1-15, 30, 83, 92-94). They are framework plumbing and I/O.
- The NetSuite client and its signed HTTP GET (index.js:8, 39-47, 76-78). They are a parameter `backend` that returns either a payload or an error message. The payload is opaque text relayed unchanged. A thrown value without a `message` is not modelled.
- The counting and window reset of `express-rate-limit` (index.js:6, 21, 36). Its decision for a counted request is the input `overLimit`. What a negative maximum means to the library is not modelled.
- `ip-range-check` internals. `IpRanges` accepts only canonical dotted-decimal IPv4: four octets 0-255 without leading zeros. The library also accepts other IPv4 spellings (octal, hexadecimal, fewer parts), IPv6, and IPv4-mapped IPv6 such as `::ffff:127.0.0.1`, which it matches against IPv4 entries. The model treats all of these as non-matching.
- JsNumbers.ParseInt: the result is an exact integer. JavaScript rounds integers beyond 2^53 to the nearest double. It also renders numbers of 10^21 and more in exponent notation, so in the source very long identifiers reach the URL changed. Negative zero is folded into 0, which every use in index.js treats the same way.
- Nested query values (an array holding objects, `transactionid[0][a]=1`) are not modelled; array elements are strings.
- `req.ip` is taken as a string. The case where it is `undefined` (a closed socket) is not modelled.
- The `type`/`statement` requests, allow-lists, date checks and PDF decoding are not in index.js. They are not modelled.
