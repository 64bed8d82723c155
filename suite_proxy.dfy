/**
 * The `/suiteproxy` route of index.js and the request pipeline around it: the
 * rate limiter runs first, then the handler validates `transactionid`, builds
 * the RESTlet URL, calls the backend and maps its outcome to a response.
 */
module SuiteProxy {
  import opened Wrappers
  import opened JsStrings
  import opened JsNumbers
  import opened RateLimit

  const MissingIdMessage: string := "Missing required query parameter: transactionid."
  const InvalidIdMessage: string := "Invalid transactionid. Must be a valid number."
  const BackendErrorMessage: string := "Error communicating with NetSuite RESTlet."
  /** The message of the TypeError thrown when an object has no usable `toString` or `valueOf`. */
  const ConversionErrorMessage: string := "Cannot convert object to primitive value"

  /**
   * What `req.query.transactionid` can hold under the extended (`qs`) query
   * parser: nothing, one string, a repeated parameter (an array of strings) or a
   * bracketed parameter (an object with the given own keys; `qs` lets a key
   * such as `toString` shadow the inherited method).
   */
  datatype QueryValue = Absent | Text(s: string) | List(items: seq<string>) | Object(keys: set<string>)

  /** `!value` is false: only absent values and the empty string are falsy. */
  predicate IsPresent(v: QueryValue)
    ensures IsPresent(v) <==> v != Absent && v != Text("")
  {
    match v
    case Absent => false
    case Text(s) => s != ""
    case _ => true
  }

  /** The outcome of the string conversion `parseInt` applies to its argument. */
  datatype Conversion = Converted(text: string) | Thrown(message: string)

  /**
   * ToString of the query value: a string is itself, an array is its comma join
   * and `undefined` is "undefined". An object is "[object Object]", unless its
   * own `toString` key hides the inherited method: that value is a string, not
   * a function, and the inherited `valueOf` returns the object itself, so the
   * conversion throws a TypeError.
   */
  function ToJsString(v: QueryValue): (c: Conversion)
    ensures c.Thrown? <==> v.Object? && "toString" in v.keys
    ensures v.Text? ==> c == Converted(v.s)
    ensures v.List? && |v.items| >= 1 && (forall i :: 0 <= i < |v.items| ==> ',' !in v.items[i])
      ==> c.Converted? && Split(c.text, ',') == v.items
  {
    match v
    case Absent => Converted("undefined")
    case Text(s) => Converted(s)
    case List(items) =>
      if |items| >= 1 && (forall i :: 0 <= i < |items| ==> ',' !in items[i]) then
        SplitJoin(items, ',');
        Converted(Join(items, ','))
      else Converted(Join(items, ','))
    case Object(keys) => if "toString" in keys then Thrown(ConversionErrorMessage) else Converted("[object Object]")
  }

  /** What the backend call produces: the parsed response, or a thrown error's message. */
  datatype BackendReply = Success(payload: string) | Failure(message: string)

  /**
   * What the handler decides before any backend call: reject with a 400, fail
   * with the message of an error thrown while converting the value, or fetch
   * this URL.
   */
  datatype Plan = Reject(error: string) | Fail(message: string) | Fetch(url: string)

  datatype Body =
    | ErrorBody(error: string)
    | ErrorDetails(error: string, details: string)
    | Relayed(payload: string)

  datatype Response = Response(status: int, body: Body)

  /**
   * Validation of `transactionid` and construction of the RESTlet URL. A
   * rejection carries one of the two validation messages, and a URL always
   * starts with the configured RESTlet URL and the parameter name.
   */
  function Validate(transactionid: QueryValue, restletUrl: Option<string>): (p: Plan)
    ensures p.Reject? ==> p.error == MissingIdMessage || p.error == InvalidIdMessage
    ensures p.Fail? ==> p.message == ConversionErrorMessage
    ensures p.Fetch? ==> EnvText(restletUrl) + "&transactionid=" <= p.url
  {
    if !IsPresent(transactionid) then Reject(MissingIdMessage)
    else
      match ToJsString(transactionid)
      case Thrown(message) => Fail(message)
      case Converted(text) =>
        match ParseInt(text)
        case NaN => Reject(InvalidIdMessage)
        case Int(id) => Fetch(EnvText(restletUrl) + "&transactionid=" + Decimal(id))
  }

  /**
   * The route handler: validation, then one backend call whose outcome becomes
   * the response. Everything thrown inside the `try` becomes a 500.
   */
  function Handle(transactionid: QueryValue, restletUrl: Option<string>, backend: string -> BackendReply): (r: Response)
    ensures r.status == 200 || r.status == 400 || r.status == 500
  {
    match Validate(transactionid, restletUrl)
    case Reject(error) => Response(400, ErrorBody(error))
    case Fail(message) => Response(500, ErrorDetails(BackendErrorMessage, message))
    case Fetch(url) =>
      match backend(url)
      case Success(payload) => Response(200, Relayed(payload))
      case Failure(message) => Response(500, ErrorDetails(BackendErrorMessage, message))
  }

  /** An incoming request, as far as index.js looks at it. */
  datatype Request = Request(forwardedFor: Option<string>, peer: string, transactionid: QueryValue)

  /**
   * The limiter followed by the route. `overLimit` is the limiter's own verdict
   * on a counted request (its counting is not part of this model); excluded
   * clients are never counted and never throttled.
   */
  function Serve(req: Request, restletUrl: Option<string>, overLimit: bool, backend: string -> BackendReply): (r: Response)
    ensures r.status == 200 || r.status == 400 || r.status == 429 || r.status == 500
  {
    if !Skip(req.forwardedFor, req.peer) && overLimit then Response(429, ErrorBody(TooManyRequestsMessage))
    else Handle(req.transactionid, restletUrl, backend)
  }

  /** The missing-parameter error is given exactly for an absent or empty `transactionid`. */
  lemma MissingExactly(v: QueryValue, restletUrl: Option<string>)
    ensures Validate(v, restletUrl) == Reject(MissingIdMessage) <==> v == Absent || v == Text("")
  {
    assert |MissingIdMessage| != |InvalidIdMessage|;
  }

  /**
   * The empty string would not parse either, but the presence check runs first,
   * so it gets the missing-parameter error.
   */
  lemma EmptyIsMissingNotInvalid(restletUrl: Option<string>)
    ensures ParseInt("") == NaN
    ensures Validate(Text(""), restletUrl) == Reject(MissingIdMessage)
  {
    ParseIntNaNAtStart("");
  }

  /**
   * The invalid-number error is given exactly for a present value that converts
   * to a string `parseInt` cannot read.
   */
  lemma InvalidExactly(v: QueryValue, restletUrl: Option<string>)
    ensures Validate(v, restletUrl) == Reject(InvalidIdMessage)
      <==> && IsPresent(v) && ToJsString(v).Converted?
           && forall ws, sign, digits, rest :: !IsNumericForm(ToJsString(v).text, ws, sign, digits, rest)
  {
    if ToJsString(v).Converted? {
      ParseIntNaN(ToJsString(v).text);
    }
    assert |MissingIdMessage| != |InvalidIdMessage|;
  }

  /**
   * An object whose own `toString` key hides the inherited method makes the
   * conversion throw: the catch-all answers 500 with the TypeError's message,
   * and the backend is never consulted.
   */
  lemma ShadowedToStringFails(keys: set<string>, restletUrl: Option<string>, backend: string -> BackendReply)
    requires "toString" in keys
    ensures Handle(Object(keys), restletUrl, backend) == Response(500, ErrorDetails(BackendErrorMessage, ConversionErrorMessage))
  {
  }

  /** Any other object converts to "[object Object]", which holds no digits: 400 "Invalid". */
  lemma PlainObjectIsInvalid(keys: set<string>, restletUrl: Option<string>)
    requires "toString" !in keys
    ensures Validate(Object(keys), restletUrl) == Reject(InvalidIdMessage)
  {
    ParseIntNaNAtStart("[object Object]");
  }

  /**
   * A value of numeric form is relayed: the URL is the configured RESTlet URL
   * followed by `&transactionid=` and the decimal form of the number read.
   */
  lemma FetchUrl(v: QueryValue, restletUrl: Option<string>, ws: string, sign: string, digits: string, rest: string)
    requires IsPresent(v) && ToJsString(v).Converted? && IsNumericForm(ToJsString(v).text, ws, sign, digits, rest)
    ensures Validate(v, restletUrl) == Fetch(EnvText(restletUrl) + "&transactionid=" + Decimal(SignedValue(sign, digits)))
  {
    ParseIntOfNumericForm(ToJsString(v).text, ws, sign, digits, rest);
  }

  /**
   * Whatever is relayed carries the number the client sent: the identifier in
   * the URL is canonical (no leading zeros, nothing after the digits) and reads
   * back as the same number.
   */
  lemma FetchCarriesSameNumber(v: QueryValue, restletUrl: Option<string>)
    requires Validate(v, restletUrl).Fetch?
    ensures ToJsString(v).Converted?
    ensures exists id: int ::
      && Validate(v, restletUrl).url == EnvText(restletUrl) + "&transactionid=" + Decimal(id)
      && ParseInt(ToJsString(v).text) == Int(id)
      && ParseInt(Decimal(id)) == Int(id)
  {
    var id := ParseInt(ToJsString(v).text).value;
    ParseIntDecimal(id);
  }

  /** Text after the digits is dropped: "12abc" is relayed as 12. */
  lemma TrailingTextDropped(restletUrl: Option<string>)
    ensures Validate(Text("12abc"), restletUrl) == Fetch(EnvText(restletUrl) + "&transactionid=" + "12")
  {
    ParsesTwelve();
    ExampleDecimals();
  }

  lemma ParsesTwelve()
    ensures ParseInt("12abc") == Int(12)
  {
    ParseIntOfLeadingDigits("12abc", 2);
    assert "12abc"[..2] == "12";
    assert DigitsValue("12") == 12;
  }

  /** Leading zeros are normalised away: "007" is relayed as 7. */
  lemma LeadingZerosDropped(restletUrl: Option<string>)
    ensures Validate(Text("007"), restletUrl) == Fetch(EnvText(restletUrl) + "&transactionid=" + "7")
  {
    ParsesSeven();
    ExampleDecimals();
  }

  lemma ParsesSeven()
    ensures ParseInt("007") == Int(7)
  {
    ParseIntOfLeadingDigits("007", 3);
    assert "007"[..3] == "007";
    ValueOfZeroZeroSeven();
  }

  lemma ValueOfZeroZeroSeven()
    ensures DigitsValue("007") == 7
  {
    LeadingZerosIgnored("00", "7");
    assert "00" + "7" == "007";
  }

  /** A repeated parameter is read through its comma-joined text: ["5", "6"] is relayed as 5. */
  lemma RepeatedParameterUsesFirst(restletUrl: Option<string>)
    ensures Validate(List(["5", "6"]), restletUrl) == Fetch(EnvText(restletUrl) + "&transactionid=" + "5")
  {
    JoinsFiveSix();
    ParsesFive();
    ExampleDecimals();
  }

  lemma JoinsFiveSix()
    ensures ToJsString(List(["5", "6"])) == Converted("5,6")
  {
  }

  lemma ParsesFive()
    ensures ParseInt("5,6") == Int(5)
  {
    ParseIntOfLeadingDigits("5,6", 1);
    assert "5,6"[..1] == "5";
    assert DigitsValue("5") == 5;
  }

  /** With radix 10 there is no hexadecimal prefix: "0x1A" is relayed as 0. */
  lemma HexPrefixReadsAsZero(restletUrl: Option<string>)
    ensures Validate(Text("0x1A"), restletUrl) == Fetch(EnvText(restletUrl) + "&transactionid=" + "0")
  {
    ParsesZero();
    ExampleDecimals();
  }

  lemma ParsesZero()
    ensures ParseInt("0x1A") == Int(0)
  {
    ParseIntOfLeadingDigits("0x1A", 1);
    assert "0x1A"[..1] == "0";
    assert DigitsValue("0") == 0;
  }

  lemma ExampleDecimals()
    ensures Decimal(12) == "12" && Decimal(7) == "7" && Decimal(5) == "5" && Decimal(0) == "0"
  {
  }

  /** Present values without digits are invalid: "abc", and an array holding one empty string. */
  lemma NonNumericIsInvalid(restletUrl: Option<string>)
    ensures Validate(Text("abc"), restletUrl) == Reject(InvalidIdMessage)
    ensures Validate(List([""]), restletUrl) == Reject(InvalidIdMessage)
  {
    TextWithoutDigits(restletUrl);
    ListWithoutDigits(restletUrl);
  }

  lemma TextWithoutDigits(restletUrl: Option<string>)
    ensures Validate(Text("abc"), restletUrl) == Reject(InvalidIdMessage)
  {
    ParseIntNaNAtStart("abc");
  }

  lemma ListWithoutDigits(restletUrl: Option<string>)
    ensures Validate(List([""]), restletUrl) == Reject(InvalidIdMessage)
  {
    assert ToJsString(List([""])) == Converted("");
    ParseIntNaNAtStart("");
  }

  /**
   * A request that ends before the backend call (a rejection, or a throwing
   * conversion) never reaches the backend: its response is the same whatever
   * the backend would do.
   */
  lemma EarlyExitSkipsBackend(v: QueryValue, restletUrl: Option<string>, b1: string -> BackendReply, b2: string -> BackendReply)
    requires !Validate(v, restletUrl).Fetch?
    ensures Handle(v, restletUrl, b1) == Handle(v, restletUrl, b2)
    ensures Validate(v, restletUrl).Reject? ==> Handle(v, restletUrl, b1) == Response(400, ErrorBody(Validate(v, restletUrl).error))
    ensures Validate(v, restletUrl).Fail? ==>
      Handle(v, restletUrl, b1) == Response(500, ErrorDetails(BackendErrorMessage, ConversionErrorMessage))
  {
  }

  /** An accepted request consults the backend at the built URL and nowhere else. */
  lemma FetchConsultsOnlyUrl(v: QueryValue, restletUrl: Option<string>, b1: string -> BackendReply, b2: string -> BackendReply)
    requires Validate(v, restletUrl).Fetch?
    requires b1(Validate(v, restletUrl).url) == b2(Validate(v, restletUrl).url)
    ensures Handle(v, restletUrl, b1) == Handle(v, restletUrl, b2)
  {
  }

  /** The outcomes of the handler and what each carries. */
  lemma HandleOutcomes(v: QueryValue, restletUrl: Option<string>, backend: string -> BackendReply)
    ensures var r := Handle(v, restletUrl, backend);
      var p := Validate(v, restletUrl);
      && (r.status == 400 <==> p.Reject?)
      && (r.status == 200 <==> p.Fetch? && backend(p.url).Success?)
      && (r.status == 500 <==> p.Fail? || (p.Fetch? && backend(p.url).Failure?))
      && (p.Fail? <==> v.Object? && "toString" in v.keys)
      && (r.status == 400 ==> r.body == ErrorBody(p.error))
      && (r.status == 200 ==> r.body == Relayed(backend(p.url).payload))
      && (r.status == 500 && p.Fail? ==> r.body == ErrorDetails(BackendErrorMessage, ConversionErrorMessage))
      && (r.status == 500 && p.Fetch? ==> r.body == ErrorDetails(BackendErrorMessage, backend(p.url).message))
  {
  }

  /** Excluded clients are never throttled: the limiter's verdict does not matter to them. */
  lemma ExcludedNeverThrottled(req: Request, restletUrl: Option<string>, overLimit: bool, backend: string -> BackendReply)
    requires Skip(req.forwardedFor, req.peer)
    ensures Serve(req, restletUrl, overLimit, backend) == Handle(req.transactionid, restletUrl, backend)
    ensures Serve(req, restletUrl, overLimit, backend).status != 429
  {
    HandleOutcomes(req.transactionid, restletUrl, backend);
  }

  /** A 429 comes exactly from a counted client over its limit, and then the handler does not run. */
  lemma ThrottleExactly(req: Request, restletUrl: Option<string>, overLimit: bool, backend: string -> BackendReply)
    ensures Serve(req, restletUrl, overLimit, backend).status == 429 <==> !Skip(req.forwardedFor, req.peer) && overLimit
    ensures Serve(req, restletUrl, overLimit, backend).status == 429 ==>
      Serve(req, restletUrl, overLimit, backend) == Response(429, ErrorBody("Too many requests. Please try again later."))
  {
    HandleOutcomes(req.transactionid, restletUrl, backend);
  }
}
