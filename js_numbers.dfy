/**
 * The global `parseInt(string, 10)` of ECMAScript (section 19.2.5 of ECMA-262)
 * and the rendering of an integral Number as text, as index.js uses them.
 */
module JsNumbers {

  /**
   * What `parseInt` returns: NaN or an integral Number. Negative zero is folded
   * into `Int(0)`: index.js only tests the result for truthiness and puts it into
   * a template string, and both treat -0 exactly like 0.
   */
  datatype Number = NaN | Int(value: int)

  /** A JavaScript value is truthy unless it is NaN or zero (for the Numbers here). */
  predicate Truthy(n: Number)
  {
    n.Int? && n.value != 0
  }

  /** `n || fallback` for a Number and an integer fallback: the number when it is truthy. */
  function OrElse(n: Number, fallback: int): (r: int)
    ensures n == Int(r) || r == fallback
    ensures fallback != 0 ==> r != 0
  {
    if Truthy(n) then n.value else fallback
  }

  predicate IsDigit(c: char)
  {
    '0' <= c <= '9'
  }

  function DigitValue(c: char): nat
    requires IsDigit(c)
  {
    c as int - '0' as int
  }

  function DigitChar(d: nat): (c: char)
    requires d < 10
    ensures IsDigit(c) && DigitValue(c) == d
  {
    ('0' as int + d) as char
  }

  /**
   * StrWhiteSpaceChar: the WhiteSpace (tab, vertical tab, form feed, space,
   * no-break space, byte order mark and the other space separators of Unicode)
   * and LineTerminator code points that `parseInt` skips at the start.
   */
  predicate IsStrWhiteSpace(c: char)
  {
    || c == '\t' || c == '\U{B}' || c == '\U{C}' || c == ' '
    || c == '\U{A0}' || c == '\U{FEFF}' || c == '\U{1680}'
    || ('\U{2000}' <= c <= '\U{200A}')
    || c == '\U{202F}' || c == '\U{205F}' || c == '\U{3000}'
    || c == '\n' || c == '\r' || c == '\U{2028}' || c == '\U{2029}'
  }

  predicate AllDigits(s: string)
  {
    forall i :: 0 <= i < |s| ==> IsDigit(s[i])
  }

  /** A non-empty run of decimal digits (leading zeros allowed). */
  predicate IsDigitRun(s: string)
  {
    |s| >= 1 && AllDigits(s)
  }

  predicate AllWhiteSpace(s: string)
  {
    forall i :: 0 <= i < |s| ==> IsStrWhiteSpace(s[i])
  }

  /** A digit string without superfluous leading zeros ("0", "7", "120"; not "", "07"). */
  predicate IsCanonical(s: string)
  {
    IsDigitRun(s) && (|s| == 1 || s[0] != '0')
  }

  /** The mathematical value of a string of decimal digits. */
  function DigitsValue(s: string): nat
    requires AllDigits(s)
    decreases |s|
  {
    if s == [] then 0 else 10 * DigitsValue(s[..|s| - 1]) + DigitValue(s[|s| - 1])
  }

  /** The length of the longest prefix of `s` made of white space. */
  function WhiteSpaceSpan(s: string): (k: nat)
    ensures k <= |s|
    ensures AllWhiteSpace(s[..k])
    ensures k == |s| || !IsStrWhiteSpace(s[k])
    decreases |s|
  {
    if s == [] || !IsStrWhiteSpace(s[0]) then 0
    else
      var k := 1 + WhiteSpaceSpan(s[1..]);
      assert s[..k] == [s[0]] + s[1..][..k - 1];
      k
  }

  /** The length of the longest prefix of `s` made of decimal digits. */
  function DigitSpan(s: string): (k: nat)
    ensures k <= |s|
    ensures AllDigits(s[..k])
    ensures k == |s| || !IsDigit(s[k])
    decreases |s|
  {
    if s == [] || !IsDigit(s[0]) then 0
    else
      var k := 1 + DigitSpan(s[1..]);
      assert s[..k] == [s[0]] + s[1..][..k - 1];
      k
  }

  /**
   * `parseInt(s, 10)`: skip leading white space, take an optional sign, then the
   * longest run of decimal digits; NaN when that run is empty. With radix 10 no
   * "0x" prefix is recognised, and whatever follows the digits is ignored.
   */
  function ParseInt(s: string): (r: Number)
    ensures r.Int? ==> exists i :: 0 <= i < |s| && IsDigit(s[i])
  {
    var i := WhiteSpaceSpan(s);
    var r := ParseSigned(s[i..]);
    assert r.Int? ==> IsDigit(s[i..][SignLength(s[i..])]);
    r
  }

  /** 1 when `t` starts with a sign character, 0 otherwise. */
  function SignLength(t: string): nat
  {
    if |t| > 0 && (t[0] == '+' || t[0] == '-') then 1 else 0
  }

  /** `parseInt` after the white space: the optional sign, then the digits. */
  function ParseSigned(t: string): (r: Number)
    ensures r.Int? ==> SignLength(t) < |t| && IsDigit(t[SignLength(t)])
  {
    var n := SignLength(t);
    ParseDigits(t[n..], n == 1 && t[0] == '-')
  }

  /** `parseInt` after the sign: the longest digit run, negated when the sign was '-'. */
  function ParseDigits(u: string, negative: bool): (r: Number)
    ensures r.Int? ==> |u| >= 1 && IsDigit(u[0])
  {
    var k := DigitSpan(u);
    if k == 0 then NaN
    else
      var magnitude: int := DigitsValue(u[..k]);
      Int(if negative then -magnitude else magnitude)
  }

  /** The value denoted by a sign ("", "+" or "-") followed by digits. */
  function SignedValue(sign: string, digits: string): int
    requires AllDigits(digits)
  {
    var magnitude: int := DigitsValue(digits);
    if sign == "-" then -magnitude else magnitude
  }

  /**
   * The shape of every string that `parseInt` accepts: white space, an optional
   * sign, at least one digit, and a rest that does not continue the digits.
   */
  predicate IsNumericForm(s: string, ws: string, sign: string, digits: string, rest: string)
  {
    && s == ws + (sign + (digits + rest))
    && AllWhiteSpace(ws)
    && (sign == "" || sign == "+" || sign == "-")
    && IsDigitRun(digits)
    && (rest == [] || !IsDigit(rest[0]))
  }

  /** Skipping white space stops at the first character that is not white space. */
  lemma {:induction false} WhiteSpaceSpanOf(ws: string, t: string)
    requires AllWhiteSpace(ws)
    requires t == [] || !IsStrWhiteSpace(t[0])
    ensures WhiteSpaceSpan(ws + t) == |ws|
    decreases |ws|
  {
    if ws != [] {
      assert (ws + t)[1..] == ws[1..] + t;
      WhiteSpaceSpanOf(ws[1..], t);
    } else {
      assert ws + t == t;
    }
  }

  /** The digit run stops at the first character that is not a digit. */
  lemma {:induction false} DigitSpanOf(digits: string, rest: string)
    requires AllDigits(digits)
    requires rest == [] || !IsDigit(rest[0])
    ensures DigitSpan(digits + rest) == |digits|
    decreases |digits|
  {
    if digits != [] {
      assert (digits + rest)[1..] == digits[1..] + rest;
      DigitSpanOf(digits[1..], rest);
    } else {
      assert digits + rest == rest;
    }
  }

  /** Every string of the numeric form parses to the value its sign and digits denote. */
  lemma ParseIntOfNumericForm(s: string, ws: string, sign: string, digits: string, rest: string)
    requires IsNumericForm(s, ws, sign, digits, rest)
    ensures ParseInt(s) == Int(SignedValue(sign, digits))
  {
    var t := sign + (digits + rest);
    assert !IsStrWhiteSpace(t[0]) by {
      if sign == "" {
        assert t[0] == digits[0];
      } else {
        assert t[0] == sign[0];
      }
    }
    WhiteSpaceSpanOf(ws, t);
    assert s[|ws|..] == t;
    ParseSignedOf(sign, digits, rest);
  }

  lemma ParseSignedOf(sign: string, digits: string, rest: string)
    requires sign == "" || sign == "+" || sign == "-"
    requires IsDigitRun(digits)
    requires rest == [] || !IsDigit(rest[0])
    ensures ParseSigned(sign + (digits + rest)) == Int(SignedValue(sign, digits))
  {
    var u := digits + rest;
    var t := sign + u;
    if sign == "" {
      assert t == u;
      assert SignLength(t) == 0;
    } else {
      assert t[0] == sign[0];
      assert SignLength(t) == 1;
    }
    assert t[SignLength(t)..] == u;
    DigitSpanOf(digits, rest);
    assert u[..|digits|] == digits;
  }

  /** Every string that parses to a number has the numeric form, with that number's value. */
  lemma ParseIntHasNumericForm(s: string)
    requires ParseInt(s).Int?
    ensures exists ws, sign, digits, rest ::
      IsNumericForm(s, ws, sign, digits, rest) && ParseInt(s).value == SignedValue(sign, digits)
  {
    var ws, sign, digits, rest := NumericFormOf(s);
  }

  /** The white space, sign, digits and rest that `parseInt` itself finds in `s`. */
  lemma NumericFormOf(s: string) returns (ws: string, sign: string, digits: string, rest: string)
    requires ParseInt(s).Int?
    ensures IsNumericForm(s, ws, sign, digits, rest) && ParseInt(s).value == SignedValue(sign, digits)
  {
    var i := WhiteSpaceSpan(s);
    ws := s[..i];
    sign, digits, rest := SignedFormOf(s[i..]);
    SplitAt(s, i);
  }

  /** The sign, digits and rest that `parseInt` finds after the white space. */
  lemma SignedFormOf(t: string) returns (sign: string, digits: string, rest: string)
    requires ParseSigned(t).Int?
    ensures t == sign + (digits + rest) && (sign == "" || sign == "+" || sign == "-")
    ensures IsDigitRun(digits) && (rest == [] || !IsDigit(rest[0]))
    ensures ParseSigned(t).value == SignedValue(sign, digits)
  {
    var n := SignLength(t);
    sign := t[..n];
    assert sign == "" || sign == "+" || sign == "-" by {
      if n == 1 {
        assert sign == [t[0]];
      }
    }
    digits, rest := DigitsFormOf(t[n..], n == 1 && t[0] == '-');
    SplitAt(t, n);
  }

  /** The digits and rest that `parseInt` finds after the sign. */
  lemma DigitsFormOf(u: string, negative: bool) returns (digits: string, rest: string)
    requires ParseDigits(u, negative).Int?
    ensures u == digits + rest && IsDigitRun(digits) && (rest == [] || !IsDigit(rest[0]))
    ensures ParseDigits(u, negative).value == if negative then -(DigitsValue(digits) as int) else DigitsValue(digits)
  {
    var k := DigitSpan(u);
    digits, rest := u[..k], u[k..];
    SplitAt(u, k);
    assert rest != [] ==> rest[0] == u[k];
  }

  lemma SplitAt(s: string, i: nat)
    requires i <= |s|
    ensures s == s[..i] + s[i..]
  {
  }

  /** Digits at the very start are read up to the first non-digit. */
  lemma ParseIntOfDigits(digits: string, rest: string)
    requires IsDigitRun(digits)
    requires rest == [] || !IsDigit(rest[0])
    ensures ParseInt(digits + rest) == Int(DigitsValue(digits))
  {
    assert digits + rest == "" + ("" + (digits + rest));
    ParseIntOfNumericForm(digits + rest, "", "", digits, rest);
  }

  /** A string whose first k characters are digits, and no more, is read as those digits. */
  lemma ParseIntOfLeadingDigits(s: string, k: nat)
    requires 1 <= k <= |s| && AllDigits(s[..k])
    requires k == |s| || !IsDigit(s[k])
    ensures ParseInt(s) == Int(DigitsValue(s[..k]))
  {
    SplitAt(s, k);
    ParseIntOfDigits(s[..k], s[k..]);
  }

  /** `parseInt` returns NaN exactly when the string does not have the numeric form. */
  lemma ParseIntNaN(s: string)
    ensures ParseInt(s) == NaN <==> forall ws, sign, digits, rest :: !IsNumericForm(s, ws, sign, digits, rest)
  {
    if ParseInt(s).Int? {
      ParseIntHasNumericForm(s);
    } else {
      forall ws, sign, digits, rest | IsNumericForm(s, ws, sign, digits, rest)
        ensures false
      {
        ParseIntOfNumericForm(s, ws, sign, digits, rest);
      }
    }
  }

  /** A string that starts with neither white space, a sign nor a digit parses to NaN. */
  lemma ParseIntNaNAtStart(s: string)
    requires s == [] || (!IsStrWhiteSpace(s[0]) && s[0] != '+' && s[0] != '-' && !IsDigit(s[0]))
    ensures ParseInt(s) == NaN
  {
    assert WhiteSpaceSpan(s) == 0;
    assert s[0..] == s;
  }

  /** The decimal digits of a natural number, most significant first. */
  function NatDecimal(n: nat): (s: string)
    ensures IsCanonical(s) && DigitsValue(s) == n
    decreases n
  {
    if n < 10 then [DigitChar(n)]
    else
      var s := NatDecimal(n / 10) + [DigitChar(n % 10)];
      assert s[..|s| - 1] == NatDecimal(n / 10);
      s
  }

  /**
   * `String(n)` for an integral Number n: a minus sign exactly for negative n,
   * then digits without superfluous leading zeros.
   */
  function Decimal(n: int): (s: string)
    ensures |s| >= 1 && (s[0] == '-' <==> n < 0)
    ensures IsCanonical(if n < 0 then s[1..] else s)
  {
    if n < 0 then
      var s := "-" + NatDecimal(-n);
      assert s[1..] == NatDecimal(-n);
      s
    else NatDecimal(n)
  }

  /** A canonical digit string with a non-zero first digit denotes a positive value. */
  lemma {:induction false} LeadingNonZeroPositive(s: string)
    requires IsDigitRun(s) && s[0] != '0'
    ensures DigitsValue(s) > 0
    decreases |s|
  {
    if |s| > 1 {
      LeadingNonZeroPositive(s[..|s| - 1]);
    }
  }

  /** A canonical digit string is the decimal rendering of its own value. */
  lemma {:induction false} CanonicalIsNatDecimal(s: string)
    requires IsCanonical(s)
    ensures NatDecimal(DigitsValue(s)) == s
    decreases |s|
  {
    if |s| > 1 {
      var init := s[..|s| - 1];
      assert IsCanonical(init);
      LeadingNonZeroPositive(init);
      CanonicalIsNatDecimal(init);
      var d := DigitValue(s[|s| - 1]);
      var n := DigitsValue(s);
      assert n == 10 * DigitsValue(init) + d && n >= 10;
      assert n / 10 == DigitsValue(init) && n % 10 == d;
      assert DigitChar(d) == s[|s| - 1];
      assert s == init + [s[|s| - 1]];
    } else {
      assert DigitChar(DigitValue(s[0])) == s[0];
    }
  }

  /** Rendering an integer and parsing it back gives the same integer. */
  lemma ParseIntDecimal(n: int)
    ensures ParseInt(Decimal(n)) == Int(n)
  {
    if n < 0 {
      assert Decimal(n) == "" + ("-" + (NatDecimal(-n) + ""));
      ParseIntOfNumericForm(Decimal(n), "", "-", NatDecimal(-n), "");
    } else {
      assert Decimal(n) == "" + ("" + (NatDecimal(n) + ""));
      ParseIntOfNumericForm(Decimal(n), "", "", NatDecimal(n), "");
    }
  }

  /** `Decimal` is injective: different integers render differently. */
  lemma DecimalInjective(m: int, n: int)
    requires Decimal(m) == Decimal(n)
    ensures m == n
  {
    ParseIntDecimal(m);
    ParseIntDecimal(n);
  }

  /** Leading zeros do not change the value of a digit string. */
  lemma {:induction false} LeadingZerosIgnored(zeros: string, t: string)
    requires forall i :: 0 <= i < |zeros| ==> zeros[i] == '0'
    requires AllDigits(t)
    ensures AllDigits(zeros + t) && DigitsValue(zeros + t) == DigitsValue(t)
    decreases |t|, |zeros|
  {
    var s := zeros + t;
    if t == [] {
      assert s == zeros;
      if zeros != [] {
        LeadingZerosIgnored(zeros[..|zeros| - 1], []);
        assert s[..|s| - 1] == zeros[..|zeros| - 1] + [];
      }
    } else {
      LeadingZerosIgnored(zeros, t[..|t| - 1]);
      assert s[..|s| - 1] == zeros + t[..|t| - 1];
    }
  }
}
