/**
 * Exact parsing of the meter's sample strings.
 *
 * The logger turns a sample into a number with Python's `float` (after
 * replacing decimal commas by points) and the legacy script with Python's
 * `int`. Both strip surrounding whitespace and accept an optional sign. This
 * module models the plain-decimal subset of that syntax exactly, as `real`
 * and `int` values rather than binary floating point.
 */
module Samples {
  import opened Wrappers

  /** The ASCII characters Python strips around a number literal. */
  predicate IsSpace(c: char) {
    c == ' ' || c == '\t' || c == '\n' || c == '\r' || c as int == 0x0B || c as int == 0x0C
  }

  predicate AllSpace(s: string) {
    forall i :: 0 <= i < |s| ==> IsSpace(s[i])
  }

  predicate IsDigit(c: char) {
    '0' <= c <= '9'
  }

  predicate AllDigits(s: string) {
    forall i :: 0 <= i < |s| ==> IsDigit(s[i])
  }

  /** Drops leading whitespace: what is kept is a suffix that does not start with whitespace. */
  function TrimLeft(s: string): (r: string)
    ensures |r| <= |s| && r == s[|s| - |r|..]
    ensures r == [] || !IsSpace(r[0])
  {
    if |s| > 0 && IsSpace(s[0]) then TrimLeft(s[1..]) else s
  }

  /** Drops trailing whitespace: what is kept is a prefix that does not end with whitespace. */
  function TrimRight(s: string): (r: string)
    ensures |r| <= |s| && r == s[..|r|]
    ensures r == [] || !IsSpace(r[|r| - 1])
  {
    if |s| > 0 && IsSpace(s[|s| - 1]) then TrimRight(s[..|s| - 1]) else s
  }

  function Strip(s: string): string {
    TrimRight(TrimLeft(s))
  }

  /** The value of a string of decimal digits, most significant first. */
  function DigitsValue(s: string): nat
    requires AllDigits(s)
  {
    if s == [] then 0 else 10 * DigitsValue(s[..|s| - 1]) + (s[|s| - 1] as int - '0' as int)
  }

  function Pow10(n: nat): (r: nat)
    ensures r >= 1
  {
    if n == 0 then 1 else 10 * Pow10(n - 1)
  }

  /** An exact decimal number: `mantissa / 10^scale`. */
  datatype Decimal = Decimal(mantissa: int, scale: nat) {
    function Value(): real {
      mantissa as real / Pow10(scale) as real
    }
  }

  /** Splits an optional leading `+` or `-` off a literal: (is it negative, the rest). */
  function SplitSign(t: string): (bool, string) {
    if |t| > 0 && (t[0] == '+' || t[0] == '-') then (t[0] == '-', t[1..]) else (false, t)
  }

  /** The position of the first decimal point, if any. */
  function FirstPoint(s: string): (r: Option<nat>)
    ensures r.Some? ==> r.value < |s| && s[r.value] == '.' && forall i :: 0 <= i < r.value ==> s[i] != '.'
    ensures r.None? ==> forall i :: 0 <= i < |s| ==> s[i] != '.'
  {
    if s == [] then None
    else if s[0] == '.' then Some(0)
    else match FirstPoint(s[1..])
      case None => None
      case Some(k) => Some(k + 1)
  }

  /**
   * Digits with at most one point and at least one digit (`27`, `27.1`, `27.`,
   * `.5`); the digits around the point form the mantissa, those after it the scale.
   */
  function UnsignedDecimal(body: string): Option<Decimal> {
    match FirstPoint(body)
    case None =>
      if body != [] && AllDigits(body) then Some(Decimal(DigitsValue(body), 0)) else None
    case Some(k) =>
      var whole, frac := body[..k], body[k + 1..];
      if AllDigits(whole) && AllDigits(frac) && |whole| + |frac| > 0
      then Some(Decimal(DigitsValue(whole + frac), |frac|))
      else None
  }

  function Negate(d: Decimal): Decimal {
    Decimal(-d.mantissa, d.scale)
  }

  /** A stripped literal: an optional sign in front of an unsigned decimal. */
  function SignedDecimal(t: string): Option<Decimal> {
    var (negative, body) := SplitSign(t);
    match UnsignedDecimal(body)
    case None => None
    case Some(d) => Some(if negative then Negate(d) else d)
  }

  /** Python's `float(s)` on plain decimal literals; `None` where `float` raises. */
  function ParseFloat(s: string): Option<Decimal> {
    SignedDecimal(Strip(s))
  }

  /** A stripped literal: an optional sign in front of decimal digits. */
  function SignedInteger(t: string): Option<int> {
    var (negative, body) := SplitSign(t);
    if body != [] && AllDigits(body)
    then Some(if negative then -(DigitsValue(body) as int) else DigitsValue(body) as int)
    else None
  }

  /** Python's `int(s)`; `None` where `int` raises. */
  function ParseInt(s: string): Option<int> {
    SignedInteger(Strip(s))
  }

  /** `s.replace(',', '.')`. */
  function NormaliseCommas(s: string): string {
    seq(|s|, i requires 0 <= i < |s| => if s[i] == ',' then '.' else s[i])
  }

  /** The logger's sample parse: decimal commas become points, then `float`. */
  function DecimalSample(s: string): Option<Decimal> {
    ParseFloat(NormaliseCommas(s))
  }

  // ---------------------------------------------------------------------------
  // Stripping

  lemma {:induction false} TrimLeftPrefix(lead: string, core: string)
    requires AllSpace(lead)
    requires core == [] || !IsSpace(core[0])
    ensures TrimLeft(lead + core) == core
    decreases |lead|
  {
    if lead != [] {
      assert (lead + core)[1..] == lead[1..] + core;
      TrimLeftPrefix(lead[1..], core);
    } else {
      assert lead + core == core;
    }
  }

  lemma {:induction false} TrimRightSuffix(core: string, trail: string)
    requires AllSpace(trail)
    requires core == [] || !IsSpace(core[|core| - 1])
    ensures TrimRight(core + trail) == core
    decreases |trail|
  {
    if trail != [] {
      var t := trail[..|trail| - 1];
      assert (core + trail)[..|core + trail| - 1] == core + t;
      TrimRightSuffix(core, t);
    } else {
      assert core + trail == core;
    }
  }

  /** Surrounding whitespace is exactly what `Strip` removes. */
  lemma StripAround(lead: string, core: string, trail: string)
    requires AllSpace(lead) && AllSpace(trail)
    requires core != [] && !IsSpace(core[0]) && !IsSpace(core[|core| - 1])
    ensures Strip(lead + core + trail) == core
  {
    assert lead + core + trail == lead + (core + trail);
    TrimLeftPrefix(lead, core + trail);
    TrimRightSuffix(core, trail);
  }

  /** A whitespace-only string strips to nothing. */
  lemma StripAllSpace(s: string)
    requires AllSpace(s)
    ensures Strip(s) == []
  {
    TrimLeftPrefix(s, []);
    assert s + [] == s;
  }


  /** A character that is not whitespace survives `TrimLeft`, shifted by what was dropped. */
  lemma {:induction false} TrimLeftKeeps(s: string, i: nat)
    requires i < |s| && !IsSpace(s[i])
    ensures |s| - |TrimLeft(s)| <= i
    decreases |s|
  {
    if IsSpace(s[0]) {
      assert s[1..][i - 1] == s[i];
      TrimLeftKeeps(s[1..], i - 1);
    }
  }

  /** A character that is not whitespace survives `TrimRight` in place. */
  lemma {:induction false} TrimRightKeeps(s: string, i: nat)
    requires i < |s| && !IsSpace(s[i])
    ensures i < |TrimRight(s)|
    decreases |s|
  {
    if IsSpace(s[|s| - 1]) {
      assert s[..|s| - 1][i] == s[i];
      TrimRightKeeps(s[..|s| - 1], i);
    }
  }

  /** Where a character that is not whitespace sits after `Strip`. */
  lemma StripKeeps(s: string, i: nat)
    requires i < |s| && !IsSpace(s[i])
    ensures var skipped := |s| - |TrimLeft(s)|;
      skipped <= i && i - skipped < |Strip(s)| && Strip(s)[i - skipped] == s[i]
  {
    var l := TrimLeft(s);
    TrimLeftKeeps(s, i);
    var j := i - (|s| - |l|);
    assert l[j] == s[i];
    TrimRightKeeps(l, j);
  }

  // ---------------------------------------------------------------------------
  // What the parsers accept

  lemma {:induction false} FirstPointAfter(whole: string, frac: string)
    requires AllDigits(whole)
    ensures FirstPoint(whole + "." + frac) == Some(|whole|)
    decreases |whole|
  {
    var s := whole + "." + frac;
    if whole == [] {
      assert s[0] == '.';
    } else {
      assert s[0] == whole[0];
      assert s[1..] == whole[1..] + "." + frac;
      FirstPointAfter(whole[1..], frac);
    }
  }

  /** The sign prefix a literal may carry: none, `+` or `-`. */
  predicate IsSignPrefix(sign: string) {
    sign == [] || sign == "+" || sign == "-"
  }

  function Signed(negative: bool, d: Decimal): Decimal {
    if negative then Negate(d) else d
  }

  lemma SplitSignOf(sign: string, body: string)
    requires IsSignPrefix(sign)
    requires body == [] || IsDigit(body[0]) || body[0] == '.'
    ensures SplitSign(sign + body) == (sign == "-", body)
  {
    if sign == [] {
      assert sign + body == body;
    } else {
      assert (sign + body)[1..] == body;
    }
  }

  lemma UnsignedPointValue(whole: string, frac: string)
    requires AllDigits(whole) && AllDigits(frac) && |whole| + |frac| > 0
    ensures AllDigits(whole + frac)
    ensures UnsignedDecimal(whole + "." + frac) == Some(Decimal(DigitsValue(whole + frac), |frac|))
  {
    var body := whole + "." + frac;
    FirstPointAfter(whole, frac);
    assert body[..|whole|] == whole && body[|whole| + 1..] == frac;
  }

  lemma UnsignedDigitsValue(digits: string)
    requires AllDigits(digits) && digits != []
    ensures UnsignedDecimal(digits) == Some(Decimal(DigitsValue(digits), 0))
  {
    assert forall i :: 0 <= i < |digits| ==> digits[i] != '.';
  }

  /** The sign, if any, and the unsigned part it stands in front of. */
  lemma SignedDecimalOf(sign: string, body: string)
    requires IsSignPrefix(sign)
    requires body == [] || IsDigit(body[0]) || body[0] == '.'
    ensures SignedDecimal(sign + body)
         == match UnsignedDecimal(body)
            case None => None
            case Some(d) => Some(Signed(sign == "-", d))
  {
    SplitSignOf(sign, body);
  }

  lemma SignedIntegerOf(sign: string, digits: string)
    requires IsSignPrefix(sign)
    requires AllDigits(digits) && digits != []
    ensures SignedInteger(sign + digits)
         == Some(if sign == "-" then -(DigitsValue(digits) as int) else DigitsValue(digits) as int)
  {
    SplitSignOf(sign, digits);
  }

  /** A literal starting with a sign, a digit or a point and ending with a digit or a point is not padded. */
  lemma CoreUnpadded(sign: string, body: string)
    requires IsSignPrefix(sign) && body != []
    requires IsDigit(body[0]) || body[0] == '.'
    requires IsDigit(body[|body| - 1]) || body[|body| - 1] == '.'
    ensures var core := sign + body; core != [] && !IsSpace(core[0]) && !IsSpace(core[|core| - 1])
  {
    var core := sign + body;
    assert core[|core| - 1] == body[|body| - 1];
    if sign == [] { assert core[0] == body[0]; } else { assert core[0] == sign[0]; }
  }

  lemma PointLiteralShape(lead: string, sign: string, whole: string, frac: string, trail: string)
    ensures lead + sign + whole + "." + frac + trail == lead + (sign + (whole + "." + frac)) + trail
  {
  }

  /**
   * Every literal of the form `<spaces><sign><digits>.<digits><spaces>` with at
   * least one digit is accepted by `float`: the digits on both sides of the
   * point make the mantissa and those after it the scale.
   */
  lemma ParseFloatPointLiteral(lead: string, sign: string, whole: string, frac: string, trail: string)
    requires AllSpace(lead) && AllSpace(trail) && IsSignPrefix(sign)
    requires AllDigits(whole) && AllDigits(frac) && |whole| + |frac| > 0
    ensures AllDigits(whole + frac)
    ensures ParseFloat(lead + sign + whole + "." + frac + trail)
         == Some(Signed(sign == "-", Decimal(DigitsValue(whole + frac), |frac|)))
  {
    var body := whole + "." + frac;
    var core := sign + body;
    PointLiteralShape(lead, sign, whole, frac, trail);
    assert body[0] == if whole == [] then '.' else whole[0];
    assert body[|body| - 1] == if frac == [] then '.' else frac[|frac| - 1];
    CoreUnpadded(sign, body);
    StripAround(lead, core, trail);
    SignedDecimalOf(sign, body);
    UnsignedPointValue(whole, frac);
  }

  /** Every literal `<spaces><sign><digits><spaces>` with at least one digit is accepted by `float`. */
  lemma ParseFloatIntegerLiteral(lead: string, sign: string, digits: string, trail: string)
    requires AllSpace(lead) && AllSpace(trail) && IsSignPrefix(sign)
    requires AllDigits(digits) && digits != []
    ensures ParseFloat(lead + sign + digits + trail) == Some(Signed(sign == "-", Decimal(DigitsValue(digits), 0)))
  {
    var core := sign + digits;
    assert lead + sign + digits + trail == lead + core + trail;
    CoreUnpadded(sign, digits);
    StripAround(lead, core, trail);
    SignedDecimalOf(sign, digits);
    UnsignedDigitsValue(digits);
  }

  /** The same literals are accepted by `int`, with the same value. */
  lemma ParseIntLiteral(lead: string, sign: string, digits: string, trail: string)
    requires AllSpace(lead) && AllSpace(trail) && IsSignPrefix(sign)
    requires AllDigits(digits) && digits != []
    ensures ParseInt(lead + sign + digits + trail)
         == Some(if sign == "-" then -(DigitsValue(digits) as int) else DigitsValue(digits) as int)
  {
    var core := sign + digits;
    assert lead + sign + digits + trail == lead + core + trail;
    CoreUnpadded(sign, digits);
    StripAround(lead, core, trail);
    SignedIntegerOf(sign, digits);
  }

  /** An unsigned decimal that parses is digits and at most one point, with at least one digit. */
  lemma UnsignedDecimalAccepts(body: string)
    requires UnsignedDecimal(body).Some?
    ensures forall i :: 0 <= i < |body| ==> IsDigit(body[i]) || body[i] == '.'
    ensures forall i, j :: 0 <= i < j < |body| && body[i] == '.' ==> body[j] != '.'
    ensures exists i :: 0 <= i < |body| && IsDigit(body[i])
  {
    match FirstPoint(body)
    case None =>
      assert IsDigit(body[0]);
    case Some(k) =>
      var whole, frac := body[..k], body[k + 1..];
      forall i | 0 <= i < |body| && i != k ensures IsDigit(body[i]) {
        if i < k { assert body[i] == whole[i]; } else { assert body[i] == frac[i - k - 1]; }
      }
      if |whole| > 0 {
        assert IsDigit(body[0]);
      } else {
        assert IsDigit(body[k + 1]);
      }
  }

  /**
   * Soundness of `float`: what it accepts is, once stripped, an optional sign
   * followed by digits and at most one point, with at least one digit.
   */
  lemma ParseFloatAccepts(s: string)
    requires ParseFloat(s).Some?
    ensures var t := Strip(s);
      && (forall i :: 0 <= i < |t| ==> IsDigit(t[i]) || t[i] == '.' || (i == 0 && (t[i] == '+' || t[i] == '-')))
      && (forall i, j :: 0 <= i < j < |t| && t[i] == '.' ==> t[j] != '.')
      && (exists i :: 0 <= i < |t| && IsDigit(t[i]))
  {
    var t := Strip(s);
    var (negative, body) := SplitSign(t);
    UnsignedDecimalAccepts(body);
    if |t| > 0 && (t[0] == '+' || t[0] == '-') {
      assert body == t[1..];
      assert forall i :: 1 <= i < |t| ==> t[i] == body[i - 1];
      var w :| 0 <= w < |body| && IsDigit(body[w]);
      assert IsDigit(t[w + 1]);
    } else {
      assert body == t;
    }
  }

  /** What `float` accepts is made of whitespace, digits, points and signs only: `x27` and `27a` are rejected. */
  lemma ParseFloatAlphabet(s: string)
    requires ParseFloat(s).Some?
    ensures forall i :: 0 <= i < |s| ==> IsSpace(s[i]) || IsDigit(s[i]) || s[i] == '.' || s[i] == '+' || s[i] == '-'
  {
    ParseFloatAccepts(s);
    forall i | 0 <= i < |s| && !IsSpace(s[i]) ensures IsDigit(s[i]) || s[i] == '.' || s[i] == '+' || s[i] == '-' {
      StripKeeps(s, i);
    }
  }

  /** A whitespace-only sample is not a number: `float` raises on it. */
  lemma ParseFloatRejectsBlank(s: string)
    requires AllSpace(s)
    ensures ParseFloat(s) == None
  {
    StripAllSpace(s);
  }

  /** Whatever `int` accepts, `float` accepts too, with the same value and scale 0. */
  lemma ParseIntIsFloat(s: string)
    requires ParseInt(s).Some?
    ensures ParseFloat(s) == Some(Decimal(ParseInt(s).value, 0))
  {
    var (negative, body) := SplitSign(Strip(s));
    assert forall i :: 0 <= i < |body| ==> body[i] != '.';
  }

  /**
   * `int` rejects any character other than whitespace, a digit or a sign,
   * anywhere in the literal: the legacy script cannot read `27.1` or `*`.
   */
  lemma ParseIntRejectsSymbol(s: string, i: nat)
    requires i < |s| && !IsSpace(s[i]) && !IsDigit(s[i]) && s[i] != '+' && s[i] != '-'
    ensures ParseInt(s) == None
  {
    StripKeeps(s, i);
    SignedIntegerRejects(Strip(s), i - (|s| - |TrimLeft(s)|));
  }

  lemma SignedIntegerRejects(t: string, j: nat)
    requires j < |t| && !IsDigit(t[j]) && t[j] != '+' && t[j] != '-'
    ensures SignedInteger(t) == None
  {
    var (negative, body) := SplitSign(t);
    if |body| < |t| {
      assert body == t[1..];
      assert body[j - 1] == t[j];
    } else {
      assert body == t;
      assert body[j] == t[j];
    }
  }

  /** Every character of a literal `int` accepts without padding is a digit or a sign. */
  lemma SignedIntegerAlphabet(t: string, j: nat)
    requires SignedInteger(t).Some? && j < |t|
    ensures IsDigit(t[j]) || t[j] == '+' || t[j] == '-'
  {
    var (negative, body) := SplitSign(t);
    if |body| < |t| {
      assert body == t[1..];
      if j > 0 {
        assert body[j - 1] == t[j];
      }
    } else {
      assert body == t;
    }
  }

  /** What `int` accepts is made of whitespace, digits and signs only. */
  lemma ParseIntAlphabet(s: string)
    requires ParseInt(s).Some?
    ensures forall i :: 0 <= i < |s| ==> IsSpace(s[i]) || IsDigit(s[i]) || s[i] == '+' || s[i] == '-'
  {
    forall i | 0 <= i < |s| && !IsSpace(s[i]) ensures IsDigit(s[i]) || s[i] == '+' || s[i] == '-' {
      StripKeeps(s, i);
      SignedIntegerAlphabet(Strip(s), i - (|s| - |TrimLeft(s)|));
    }
  }

  /** A sample `int` accepts is read by the logger as the same value, of scale 0. */
  lemma IntSampleIsDecimalSample(s: string)
    requires ParseInt(s).Some?
    ensures DecimalSample(s) == Some(Decimal(ParseInt(s).value, 0))
  {
    ParseIntAlphabet(s);
    NoCommaUnchanged(s);
    ParseIntIsFloat(s);
  }

  // ---------------------------------------------------------------------------
  // Decimal commas

  /** A comma and a point in the same place parse alike: `27,1` and `27.1` are one value. */
  lemma CommaAndPointAgree(p: string, q: string)
    ensures DecimalSample(p + "," + q) == DecimalSample(p + "." + q)
  {
    assert NormaliseCommas(p + "," + q) == NormaliseCommas(p + "." + q);
  }

  /** What the logger reads as a number is made of whitespace, digits, points, commas and signs only. */
  lemma DecimalSampleAlphabet(s: string)
    requires DecimalSample(s).Some?
    ensures forall i :: 0 <= i < |s| ==>
      IsSpace(s[i]) || IsDigit(s[i]) || s[i] == '.' || s[i] == ',' || s[i] == '+' || s[i] == '-'
  {
    var n := NormaliseCommas(s);
    ParseFloatAlphabet(n);
    assert forall i :: 0 <= i < |s| ==> n[i] == (if s[i] == ',' then '.' else s[i]);
  }

  lemma NoCommaUnchanged(s: string)
    requires forall i :: 0 <= i < |s| ==> s[i] != ','
    ensures NormaliseCommas(s) == s
  {
  }

  lemma DigitsValue271()
    ensures DigitsValue("271") == 271
  {
    assert "271"[..2] == "27";
    assert "27"[..1] == "2";
    assert "2"[..0] == "";
  }

  lemma DigitsValue33()
    ensures DigitsValue("33") == 33
  {
    assert "33"[..1] == "3";
    assert "3"[..0] == "";
  }

  lemma ParseFloat271()
    ensures ParseFloat(" 27.1") == Some(Decimal(271, 1))
  {
    assert " 27.1" == " " + "" + "27" + "." + "1" + "";
    assert "27" + "1" == "271";
    ParseFloatPointLiteral(" ", "", "27", "1", "");
    DigitsValue271();
  }

  lemma Normalised271()
    ensures NormaliseCommas(" 27.1") == " 27.1"
  {
    var s := " 27.1";
    assert s[0] == ' ' && s[1] == '2' && s[2] == '7' && s[3] == '.' && s[4] == '1';
    NoCommaUnchanged(s);
  }

  lemma SplitAtSeparator()
    ensures " 27" + "," + "1" == " 27,1" && " 27" + "." + "1" == " 27.1"
  {
  }

  lemma Value271()
    ensures Decimal(271, 1).Value() == 27.1
  {
    assert Pow10(1) == 10;
  }

  /** A sample of plain digits is read as that integer. */
  lemma PlainDigitsSample(digits: string)
    requires AllDigits(digits) && digits != []
    ensures DecimalSample(digits) == Some(Decimal(DigitsValue(digits), 0))
  {
    NoCommaUnchanged(digits);
    assert digits == "" + "" + digits + "";
    ParseFloatIntegerLiteral("", "", digits, "");
  }

  /** The sample `' 27,1'` of the logger's unit test reads as exactly 27.1. */
  lemma DecimalSampleCommaExample()
    ensures DecimalSample(" 27,1") == Some(Decimal(271, 1))
    ensures DecimalSample(" 27.1") == Some(Decimal(271, 1))
    ensures Decimal(271, 1).Value() == 27.1
  {
    CommaAndPointAgree(" 27", "1");
    SplitAtSeparator();
    Normalised271();
    ParseFloat271();
    Value271();
  }

  /** The sample `' 33'` of the logger's unit test reads as exactly 33. */
  lemma DecimalSampleIntegerExample()
    ensures DecimalSample(" 33") == Some(Decimal(33, 0))
  {
    NoCommaUnchanged(" 33");
    assert " 33" == " " + "" + "33" + "";
    ParseFloatIntegerLiteral(" ", "", "33", "");
    DigitsValue33();
  }

  /** The two samples of the logger's unit test, read as 27.1 and 33. */
  lemma UnitTestSamples()
    ensures DecimalSample(" 27,1") == Some(Decimal(271, 1))
    ensures DecimalSample(" 33") == Some(Decimal(33, 0))
  {
    DecimalSampleCommaExample();
    DecimalSampleIntegerExample();
  }
}
