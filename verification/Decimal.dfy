/**
 Exact base-10 values (internal/decimal/decimal.go): an int64 `unscaled` with a number of
 fractional digits. Big integers and rationals of the source are Dafny's `int`.
 */
module Decimal {
  import opened Wrappers
  import opened Text
  import opened Arithmetic

  const MAX_SCALE := 9

  datatype Decimal = Decimal(unscaled: int, scale: int) {
    // What the Go types allow, apart from a negative scale, which no code path creates.
    predicate Representable() {
      IsInt64(unscaled) && 0 <= scale
    }
  }

  datatype DecimalError = Syntax | ScaleTooLarge | OutOfRange | Overflow

  function Pow10(n: nat): (p: int)
    ensures p >= 1
  {
    if n == 0 then 1 else 10 * Pow10(n - 1)
  }

  // ----- Parse -----

  function StripSign(s: string): (r: (bool, string)) {
    if s != [] && s[0] == '+' then (false, s[1..])
    else if s != [] && s[0] == '-' then (true, s[1..])
    else (false, s)
  }

  function ParseBody(neg: bool, s: string): Result<Decimal, DecimalError> {
    var cut := Cut(s, '.');
    var intPart := if cut.Some? then cut.value.0 else s;
    var fracPart := if cut.Some? then cut.value.1 else "";
    if s == "" || (cut.Some? && fracPart == "") then Failure(Syntax)
    else if |fracPart| > MAX_SCALE then Failure(ScaleTooLarge)
    else if !AllDigits(intPart + fracPart) then Failure(Syntax)
    else
      match ParseInt64(intPart + fracPart)
      case None => Failure(OutOfRange)
      case Some(n) => Success(Decimal(if neg then -n else n, |fracPart|))
  }

  function ParseSpec(text: string): Result<Decimal, DecimalError> {
    var (neg, s) := StripSign(TrimSpace(text));
    ParseBody(neg, s)
  }

  method OnlyDigits(digits: string) returns (ok: bool)
    ensures ok == AllDigits(digits)
  {
    for i := 0 to |digits|
      invariant forall k :: 0 <= k < i ==> IsDigit(digits[k])
    {
      if !IsDigit(digits[i]) {
        return false;
      }
    }
    return true;
  }

  method Parse(text: string) returns (r: Result<Decimal, DecimalError>)
    ensures r == ParseSpec(text)
  {
    var s := TrimSpace(text);
    if s == "" {
      return Failure(Syntax);
    }
    var neg := false;
    if s[0] == '+' {
      s := s[1..];
    } else if s[0] == '-' {
      neg := true;
      s := s[1..];
    }
    if s == "" {
      return Failure(Syntax);
    }
    var cut := Cut(s, '.');
    var intPart, fracPart := s, "";
    if cut.Some? {
      intPart, fracPart := cut.value.0, cut.value.1;
    }
    if cut.Some? && fracPart == "" {
      return Failure(Syntax);
    }
    if |fracPart| > MAX_SCALE {
      return Failure(ScaleTooLarge);
    }
    var digits := intPart + fracPart;
    var clean := OnlyDigits(digits);
    if !clean {
      return Failure(Syntax);
    }
    var n := ParseInt64(digits);
    if n.None? {
      return Failure(OutOfRange);
    }
    return Success(Decimal(if neg then -n.value else n.value, |fracPart|));
  }

  function Unsigned(whole: string, point: bool, fraction: string): string {
    whole + (if point then "." + fraction else "")
  }

  // A sign or none, a whole part, and a point with up to nine digits behind it or none.
  predicate Written(text: string, sign: string, whole: string, point: bool, fraction: string) {
    && sign in {"", "+", "-"} && AllDigits(whole) && AllDigits(fraction)
    && text == sign + Unsigned(whole, point, fraction)
    && (if point then 0 < |fraction| <= 9 else fraction == "" && whole != "")
  }

  lemma StripWritten(sign: string, body: string)
    requires sign in {"", "+", "-"} && body != "" && body[0] != '+' && body[0] != '-'
    ensures StripSign(sign + body) == (sign == "-", body)
  {
    if sign != "" {
      assert (sign + body)[1..] == body;
    } else {
      assert sign + body == body;
    }
  }

  lemma CutWritten(whole: string, point: bool, fraction: string)
    requires AllDigits(whole) && AllDigits(fraction) && (!point ==> fraction == "")
    ensures Cut(Unsigned(whole, point, fraction), '.') == if point then Some((whole, fraction)) else None
  {
    if point {
      CutAtFirst(whole, fraction, '.');
      assert whole + ['.'] + fraction == whole + ("." + fraction);
    } else {
      CutMissing(whole, '.');
      assert whole + "" == whole;
    }
  }

  lemma DigitsRead(neg: bool, body: string, whole: string, fraction: string)
    requires AllDigits(whole + fraction) && whole + fraction != "" && body != "" && |fraction| <= 9
    requires if fraction == "" then Cut(body, '.') == None && body == whole else Cut(body, '.') == Some((whole, fraction))
    ensures
      ParseBody(neg, body)
      == match ParseInt64(whole + fraction)
         case None => Failure(OutOfRange)
         case Some(n) => Success(Decimal(if neg then -n else n, |fraction|))
  {
    var cut := Cut(body, '.');
    assert (if cut.Some? then cut.value.0 else body) == whole;
    assert (if cut.Some? then cut.value.1 else "") == fraction;
  }

  lemma DigitsFit(digits: string)
    requires AllDigits(digits) && digits != ""
    ensures ParseInt64(digits) == if DigitsValue(digits) > 0x7fff_ffff_ffff_ffff then None else Some(DigitsValue(digits))
  {
    ParseUnsigned(digits);
  }

  lemma WrittenDigits(whole: string, point: bool, fraction: string)
    requires AllDigits(whole) && AllDigits(fraction) && (point || whole != "") && (point ==> fraction != "")
    ensures AllDigits(whole + fraction) && whole + fraction != "" && Unsigned(whole, point, fraction) != ""
  {
    assert |whole + fraction| == |whole| + |fraction|;
  }

  lemma BodyReads(neg: bool, whole: string, point: bool, fraction: string)
    requires AllDigits(whole) && AllDigits(fraction)
    requires if point then 0 < |fraction| <= 9 else fraction == "" && whole != ""
    ensures
      var n := DigitsValue(whole + fraction);
      ParseBody(neg, Unsigned(whole, point, fraction))
      == if n > 0x7fff_ffff_ffff_ffff then Failure(OutOfRange) else Success(Decimal(if neg then -n else n, |fraction|))
  {
    var body := Unsigned(whole, point, fraction);
    CutWritten(whole, point, fraction);
    WrittenDigits(whole, point, fraction);
    if !point {
      assert body == whole;
    }
    DigitsRead(neg, body, whole, fraction);
    DigitsFit(whole + fraction);
  }

  // Every text so written, with white space around it or not, is read: the digits are the number without
  // its point, those behind the point the scale; unless the digits do not fit.
  lemma ParseReads(text: string, sign: string, whole: string, point: bool, fraction: string)
    requires Written(TrimSpace(text), sign, whole, point, fraction)
    ensures
      var n := DigitsValue(whole + fraction);
      ParseSpec(text) == if n > 0x7fff_ffff_ffff_ffff then Failure(OutOfRange)
                         else Success(Decimal(if sign == "-" then -n else n, |fraction|))
  {
    WrittenStart(whole, point, fraction);
    StripWritten(sign, Unsigned(whole, point, fraction));
    BodyReads(sign == "-", whole, point, fraction);
  }

  lemma WrittenStart(whole: string, point: bool, fraction: string)
    requires AllDigits(whole) && (!point ==> whole != "")
    ensures
      var body := Unsigned(whole, point, fraction);
      body != "" && body[0] != '+' && body[0] != '-'
  {
    var body := Unsigned(whole, point, fraction);
    assert body[0] == if whole != "" then whole[0] else '.';
  }

  // ----- String -----

  // Negation of an int64, which leaves the smallest value unchanged.
  function Negate64(n: int): int
    requires IsInt64(n)
  {
    if n == INT64_MIN then n else -n
  }

  function PadZeros(digits: string, scale: int): (s: string)
    ensures |s| > scale && |s| >= |digits|
    decreases scale - |digits|
  {
    if |digits| <= scale then PadZeros("0" + digits, scale) else digits
  }

  function StringSpec(d: Decimal): string
    requires d.Representable()
  {
    if d.scale == 0 then FormatInt(d.unscaled)
    else
      var u := if d.unscaled < 0 then Negate64(d.unscaled) else d.unscaled;
      var digits := PadZeros(FormatInt(u), d.scale);
      var cut := |digits| - d.scale;
      Signed(d.unscaled < 0, digits[..cut] + "." + digits[cut..])
  }

  function Signed(neg: bool, body: string): string {
    if neg then "-" + body else body
  }

  method String(d: Decimal) returns (out: string)
    requires d.Representable()
    ensures out == StringSpec(d)
  {
    if d.scale == 0 {
      return FormatInt(d.unscaled);
    }
    var neg := d.unscaled < 0;
    var u := d.unscaled;
    if neg {
      u := Negate64(u);
    }
    var digits := FormatInt(u);
    while |digits| <= d.scale
      invariant PadZeros(digits, d.scale) == PadZeros(FormatInt(u), d.scale)
      decreases d.scale - |digits|
    {
      digits := "0" + digits;
    }
    var cut := |digits| - d.scale;
    out := digits[..cut] + "." + digits[cut..];
    if neg {
      out := "-" + out;
    }
  }

  // ----- the round trip -----

  lemma {:induction false} PadZerosValue(digits: string, scale: int)
    requires AllDigits(digits)
    ensures AllDigits(PadZeros(digits, scale))
    ensures DigitsValue(PadZeros(digits, scale)) == DigitsValue(digits)
    decreases scale - |digits|
  {
    if |digits| <= scale {
      LeadingZero(digits);
      PadZerosValue("0" + digits, scale);
    }
  }

  lemma DigitsAreNotSpecial(s: string)
    requires AllDigits(s) && s != []
    ensures '.' !in s && !IsSpace(s[0]) && !IsSpace(s[|s| - 1]) && s[0] != '+' && s[0] != '-'
  {
  }

  // A sign in front of text that starts and ends with no sign and no space is just stripped.
  lemma SignedText(neg: bool, body: string)
    requires body != [] && !IsSpace(body[0]) && !IsSpace(body[|body| - 1])
    requires body[0] != '+' && body[0] != '-'
    ensures ParseSpec(Signed(neg, body)) == ParseBody(neg, body)
  {
    var text := Signed(neg, body);
    assert text[|text| - 1] == body[|body| - 1];
    TrimSpaceIdentity(text);
  }

  // `whole.frac`, the only shape String produces for a positive scale.
  lemma CutPointed(whole: string, frac: string)
    requires '.' !in whole
    ensures Cut(whole + "." + frac, '.') == Some((whole, frac))
  {
    assert whole + "." + frac == whole + ['.'] + frac;
    CutAtFirst(whole, frac, '.');
  }

  lemma ParseCut(neg: bool, s: string, whole: string, frac: string)
    requires s != "" && frac != [] && Cut(s, '.') == Some((whole, frac))
    ensures |frac| > MAX_SCALE || !AllDigits(whole + frac) ==> ParseBody(neg, s).Failure?
    ensures |frac| <= MAX_SCALE && AllDigits(whole + frac) && DigitsValue(whole + frac) <= INT64_MAX ==>
              var n := DigitsValue(whole + frac);
              ParseBody(neg, s) == Success(Decimal(if neg then -n else n, |frac|))
  {
    if AllDigits(whole + frac) {
      ParseUnsigned(whole + frac);
    }
  }

  lemma ParseUnpointed(neg: bool, digits: string)
    requires digits != [] && AllDigits(digits)
    ensures DigitsValue(digits) > INT64_MAX ==> ParseBody(neg, digits).Failure?
    ensures DigitsValue(digits) <= INT64_MAX ==>
              var n := DigitsValue(digits);
              ParseBody(neg, digits) == Success(Decimal(if neg then -n else n, 0))
  {
    CutMissing(digits, '.');
    ParseUnsigned(digits);
    assert digits + "" == digits;
  }

  lemma WholeRoundTrip(n: int)
    requires IsInt64(n)
    ensures ParseSpec(StringSpec(Decimal(n, 0))) == Success(Decimal(n, 0)) <==> n != INT64_MIN
  {
    var u: nat := if n < 0 then -n else n;
    var digits := FormatNat(u);
    FormatNatValue(u);
    assert FormatInt(n) == Signed(n < 0, digits);
    DigitsAreNotSpecial(digits);
    SignedText(n < 0, digits);
    ParseUnpointed(n < 0, digits);
  }

  lemma SplitDigits(digits: string, scale: nat) returns (whole: string, frac: string)
    requires AllDigits(digits) && scale <= |digits|
    ensures whole == digits[..|digits| - scale] && frac == digits[|digits| - scale..] && whole + frac == digits
    ensures AllDigits(whole) && AllDigits(frac)
  {
    whole, frac := digits[..|digits| - scale], digits[|digits| - scale..];
  }

  lemma PaddedText(d: Decimal, digits: string)
    requires d.Representable() && d.unscaled != INT64_MIN && d.scale > 0
    requires digits == PadZeros(FormatNat(if d.unscaled < 0 then -d.unscaled else d.unscaled), d.scale)
    ensures StringSpec(d) == Signed(d.unscaled < 0, digits[..|digits| - d.scale] + "." + digits[|digits| - d.scale..])
  {
  }

  lemma PaddedDigits(n: nat, scale: int) returns (digits: string)
    ensures digits == PadZeros(FormatNat(n), scale) && |digits| > scale && AllDigits(digits) && DigitsValue(digits) == n
  {
    digits := PadZeros(FormatNat(n), scale);
    FormatNatValue(n);
    PadZerosValue(FormatNat(n), scale);
  }

  // The digits on both sides of the point, for a value that can be negated.
  lemma StringShape(d: Decimal) returns (whole: string, frac: string)
    requires d.Representable() && d.unscaled != INT64_MIN && d.scale > 0
    ensures whole != [] && |frac| == d.scale && AllDigits(whole) && AllDigits(frac) && AllDigits(whole + frac)
    ensures DigitsValue(whole + frac) == if d.unscaled < 0 then -d.unscaled else d.unscaled
    ensures StringSpec(d) == Signed(d.unscaled < 0, whole + "." + frac)
  {
    var digits := PaddedDigits(if d.unscaled < 0 then -d.unscaled else d.unscaled, d.scale);
    PaddedText(d, digits);
    whole, frac := SplitDigits(digits, d.scale);
  }

  lemma ParseSigned(neg: bool, whole: string, frac: string)
    requires AllDigits(whole) && AllDigits(frac) && whole != [] && frac != []
    ensures ParseSpec(Signed(neg, whole + "." + frac)) == ParseBody(neg, whole + "." + frac)
  {
    DigitsAreNotSpecial(whole);
    DigitsAreNotSpecial(frac);
    var body := whole + "." + frac;
    assert body[|body| - 1] == frac[|frac| - 1] && body[0] == whole[0];
    SignedText(neg, body);
  }

  // A value that can be negated, with a point in its text.
  lemma PointedRoundTrip(d: Decimal)
    requires d.Representable() && d.unscaled != INT64_MIN && d.scale > 0
    ensures ParseSpec(StringSpec(d)) == Success(d) <==> d.scale <= MAX_SCALE
  {
    var whole, frac := StringShape(d);
    var neg := d.unscaled < 0;
    var text := StringSpec(d);
    assert ParseSpec(text) == ParseBody(neg, whole + "." + frac) by {
      ParseSigned(neg, whole, frac);
    }
    assert '.' !in whole by {
      DigitsAreNotSpecial(whole);
    }
    BodyValue(d, neg, whole, frac);
  }

  lemma BodyValue(d: Decimal, neg: bool, whole: string, frac: string)
    requires '.' !in whole && frac != [] && AllDigits(whole + frac)
    requires d.Representable() && d.unscaled != INT64_MIN && d.scale == |frac| && neg == (d.unscaled < 0)
    requires DigitsValue(whole + frac) == if neg then -d.unscaled else d.unscaled
    ensures ParseBody(neg, whole + "." + frac) == Success(d) <==> d.scale <= MAX_SCALE
  {
    CutPointed(whole, frac);
    ParseCut(neg, whole + "." + frac, whole, frac);
  }

  lemma {:induction false} PaddedMinus(s: string, scale: int)
    requires s != [] && '-' in s && '.' !in s
    ensures
      var p := PadZeros(s, scale);
      '-' in p && '.' !in p && p[|p| - 1] == s[|s| - 1]
    decreases scale - |s|
  {
    if |s| <= scale {
      PaddedMinus("0" + s, scale);
    }
  }

  lemma MinusRefusesDigits(s: string)
    requires '-' in s
    ensures !AllDigits(s)
  {
  }

  lemma DoubleSignRefused(whole: string, frac: string)
    requires whole != [] && frac != []
    requires '.' !in whole && '-' in whole + frac
    requires !IsSpace(frac[|frac| - 1])
    ensures ParseSpec(Signed(true, whole + "." + frac)).Failure?
  {
    var body := whole + "." + frac;
    var text := "-" + body;
    assert text[|text| - 1] == frac[|frac| - 1];
    TrimSpaceIdentity(text);
    assert text[1..] == body;
    MinusRefusesDigits(whole + frac);
    CutPointed(whole, frac);
    ParseCut(true, body, whole, frac);
  }

  lemma FormatOfNegative(n: int)
    requires n < 0
    ensures
      var s := FormatInt(n);
      '-' in s && '.' !in s && !IsSpace(s[|s| - 1])
  {
    var tail := FormatNat(-n);
    var s := FormatInt(n);
    assert s == "-" + tail;
    assert s[0] == '-' && s[|s| - 1] == tail[|tail| - 1];
  }

  lemma SplitText(digits: string, cut: nat)
    requires cut < |digits|
    ensures digits[..cut] + digits[cut..] == digits && digits[cut..] != []
    ensures digits[cut..][|digits[cut..]| - 1] == digits[|digits| - 1]
    ensures '.' !in digits ==> '.' !in digits[..cut]
  {
  }

  lemma SmallestText(d: Decimal)
    requires d.Representable() && d.unscaled < 0 < d.scale && Negate64(d.unscaled) == d.unscaled
    ensures
      var digits := PadZeros(FormatInt(d.unscaled), d.scale);
      var cut := |digits| - d.scale;
      StringSpec(d) == Signed(true, digits[..cut] + "." + digits[cut..])
  {
  }

  // The smallest int64 cannot be negated, so its text carries two signs and is refused.
  lemma SmallestRefused(d: Decimal)
    requires d.Representable() && d.unscaled < 0 < d.scale && Negate64(d.unscaled) == d.unscaled
    ensures ParseSpec(StringSpec(d)).Failure?
  {
    var minus := FormatInt(d.unscaled);
    var digits := PadZeros(minus, d.scale);
    var cut := |digits| - d.scale;
    FormatOfNegative(d.unscaled);
    PaddedMinus(minus, d.scale);
    SplitText(digits, cut);
    SmallestText(d);
    DoubleSignRefused(digits[..cut], digits[cut..]);
  }

  // String round-trips exactly the decimals whose value can be negated and whose scale Parse allows.
  lemma StringRoundTrip(d: Decimal)
    requires d.Representable()
    ensures ParseSpec(StringSpec(d)) == Success(d) <==> d.unscaled != INT64_MIN && d.scale <= MAX_SCALE
  {
    if d.scale == 0 {
      WholeRoundTrip(d.unscaled);
    } else if d.unscaled == INT64_MIN {
      SmallestRefused(d);
    } else {
      PointedRoundTrip(d);
    }
  }

  // Every parsed decimal is one of them, so what Parse read is what String followed by Parse reads.
  lemma ParsedRoundTrips(text: string)
    requires ParseSpec(text).Success?
    ensures
      var d := ParseSpec(text).value;
      d.Representable() && ParseSpec(StringSpec(d)) == Success(d)
  {
    StringRoundTrip(ParseSpec(text).value);
  }

  // ----- comparison and subtraction -----

  ghost function Value(d: Decimal): real
    requires 0 <= d.scale
  {
    d.unscaled as real / Pow10(d.scale) as real
  }

  function Cmp(d: Decimal, o: Decimal): int
    requires 0 <= d.scale && 0 <= o.scale
  {
    var left, right := d.unscaled * Pow10(o.scale), o.unscaled * Pow10(d.scale);
    if left < right then -1 else if left > right then 1 else 0
  }

  // Cmp orders decimals of any two scales by the number they denote.
  lemma CmpOrdersValues(d: Decimal, o: Decimal)
    requires 0 <= d.scale && 0 <= o.scale
    ensures Cmp(d, o) == -1 <==> Value(d) < Value(o)
    ensures Cmp(d, o) == 0 <==> Value(d) == Value(o)
    ensures Cmp(d, o) == 1 <==> Value(d) > Value(o)
  {
    CrossMultiply(d.unscaled, Pow10(d.scale), o.unscaled, Pow10(o.scale));
    CrossMultiply(o.unscaled, Pow10(o.scale), d.unscaled, Pow10(d.scale));
  }

  function Rescaled(d: Decimal, scale: int): int
    requires 0 <= d.scale <= scale
  {
    d.unscaled * Pow10(scale - d.scale)
  }

  function SubSpec(d: Decimal, o: Decimal): Result<Decimal, DecimalError>
    requires 0 <= d.scale && 0 <= o.scale
  {
    var scale := if o.scale > d.scale then o.scale else d.scale;
    var n := Rescaled(d, scale) - Rescaled(o, scale);
    if IsInt64(n) then Success(Decimal(n, scale)) else Failure(Overflow)
  }

  method Sub(d: Decimal, o: Decimal) returns (r: Result<Decimal, DecimalError>)
    requires d.Representable() && o.Representable()
    ensures r == SubSpec(d, o)
  {
    var scale := d.scale;
    if o.scale > scale {
      scale := o.scale;
    }
    var left := d.unscaled;
    var right := o.unscaled;
    if d.scale < scale {
      left := left * Pow10(scale - d.scale);
    }
    if o.scale < scale {
      right := right * Pow10(scale - o.scale);
    }
    left := left - right;
    if !IsInt64(left) {
      return Failure(Overflow);
    }
    return Success(Decimal(left, scale));
  }

  lemma {:induction false} Pow10Adds(m: nat, n: nat)
    ensures Pow10(m + n) == Pow10(m) * Pow10(n)
  {
    if m > 0 {
      Pow10Adds(m - 1, n);
    }
  }

  lemma RescaledKeepsValue(d: Decimal, scale: int)
    requires 0 <= d.scale <= scale
    ensures Rescaled(d, scale) as real / Pow10(scale) as real == Value(d)
  {
    var a, b := Pow10(scale - d.scale), Pow10(d.scale);
    Pow10Adds(scale - d.scale, d.scale);
    Reassociate(d.unscaled, a, b);
    CrossMultiply(Rescaled(d, scale), Pow10(scale), d.unscaled, b);
  }

  lemma QuotientDifference(a: int, b: int, p: int)
    requires p > 0
    ensures (a - b) as real / p as real == a as real / p as real - b as real / p as real
  {
  }

  ghost predicate IsDifference(e: Decimal, d: Decimal, o: Decimal)
    requires 0 <= d.scale && 0 <= o.scale
  {
    0 <= e.scale && Value(e) == Value(d) - Value(o)
  }

  // At the larger scale exactly one integer is the difference.
  lemma DifferenceAtScale(e: Decimal, d: Decimal, o: Decimal, scale: int)
    requires 0 <= d.scale <= scale && 0 <= o.scale <= scale && e.scale == scale
    ensures IsDifference(e, d, o) <==> e.unscaled == Rescaled(d, scale) - Rescaled(o, scale)
  {
    var left, right := Rescaled(d, scale), Rescaled(o, scale);
    RescaledKeepsValue(d, scale);
    RescaledKeepsValue(o, scale);
    QuotientDifference(left, right, Pow10(scale));
    CrossMultiply(e.unscaled, Pow10(scale), left - right, Pow10(scale));
    MulOrder(e.unscaled, left - right, Pow10(scale));
  }

  // Sub is exact at the larger scale, and fails exactly when no int64 is that difference.
  lemma SubIsExact(d: Decimal, o: Decimal)
    requires d.Representable() && o.Representable()
    ensures
      var scale := if o.scale > d.scale then o.scale else d.scale;
      && (forall e :: SubSpec(d, o) == Success(e) ==>
            e.Representable() && e.scale == scale && IsDifference(e, d, o))
      && (SubSpec(d, o).Failure? ==>
            forall e: Decimal :: e.scale == scale && IsDifference(e, d, o) ==> !e.Representable())
  {
    var scale := if o.scale > d.scale then o.scale else d.scale;
    forall e: Decimal | e.scale == scale
      ensures IsDifference(e, d, o) <==> e.unscaled == Rescaled(d, scale) - Rescaled(o, scale)
    {
      DifferenceAtScale(e, d, o, scale);
    }
  }

  // ----- percentages -----

  // big.Rat.FloatString(0): the quotient rounded to an integer, halves away from zero.
  function RoundHalfAway(num: int, den: int): int
    requires den > 0
  {
    var n := if num < 0 then -num else num;
    var q := if 2 * (n % den) >= den then n / den + 1 else n / den;
    if num < 0 then -q else q
  }

  function PercentNum(d: Decimal, limit: Decimal): int
    requires 0 <= d.scale && 0 <= limit.scale
  {
    100 * d.unscaled * Pow10(limit.scale)
  }

  function PercentDen(d: Decimal, limit: Decimal): (den: int)
    requires 0 <= d.scale && limit.unscaled > 0
    ensures den > 0
  {
    limit.unscaled * Pow10(d.scale)
  }

  function PercentOf(d: Decimal, limit: Decimal): Option<int>
    requires d.Representable() && limit.Representable()
  {
    if limit.unscaled <= 0 then None
    else
      var q := RoundHalfAway(PercentNum(d, limit), PercentDen(d, limit));
      if IsInt64(q) then Some(q) else None
  }

  // q is an integer nearest to num / den, and a half is rounded away from zero.
  ghost predicate Nearest(q: int, num: int, den: int) {
    && -den <= 2 * (q * den - num) <= den
    && (2 * (q * den - num) == den ==> num > 0)
    && (2 * (q * den - num) == -den ==> num < 0)
  }

  lemma RoundedIsNearest(num: int, den: int)
    requires den > 0
    ensures Nearest(RoundHalfAway(num, den), num, den)
  {
    var n := if num < 0 then -num else num;
    var k, r := n / den, n % den;
    assert n == k * den + r;
    assert (k + 1) * den == k * den + den;
    var q := if 2 * r >= den then k + 1 else k;
    assert (-q) * den == -(q * den);
  }

  // Rounding is monotone, so in particular at most one integer is nearest.
  lemma NearestMonotone(a: int, b: int, den: int, p: int, q: int)
    requires den > 0 && a <= b && Nearest(p, a, den) && Nearest(q, b, den)
    ensures p <= q
  {
    if p > q {
      NextMultiple(p, q, den);
    }
  }

  // Nearness depends on the fraction, not on how it is written.
  lemma NearestScales(q: int, num: int, den: int, k: int)
    requires den > 0 && k > 0 && Nearest(q, num, den)
    ensures Nearest(q, num * k, den * k)
  {
    var t := 2 * (q * den - num);
    assert 2 * (q * (den * k) - num * k) == t * k by {
      Reassociate(q, den, k);
    }
    MulOrder(t, den, k);
    MulOrder(-den, t, k);
    MulOrder(0, num, k);
    assert (-den) * k == -(den * k);
  }

  lemma PercentIsQuotient(d: Decimal, limit: Decimal)
    requires d.Representable() && limit.Representable() && limit.unscaled > 0
    ensures Value(limit) > 0.0
    ensures 100.0 * Value(d) / Value(limit) == PercentNum(d, limit) as real / PercentDen(d, limit) as real
  {
    var pd, pl := Pow10(d.scale), Pow10(limit.scale);
    CrossMultiply(0, 1, limit.unscaled, pl);
    RatioOfQuotients(100 * d.unscaled, pd, limit.unscaled, pl);
    assert (100 * d.unscaled) as real == 100.0 * d.unscaled as real;
    HundredTimes(d.unscaled as real, pd as real);
  }

  lemma HundredTimes(a: real, p: real)
    requires p > 0.0
    ensures (100.0 * a) / p == 100.0 * (a / p)
  {
  }

  // (a / p) / (b / q) == (a * q) / (b * p)
  lemma RatioOfQuotients(a: int, p: int, b: int, q: int)
    requires p > 0 && q > 0 && b > 0
    ensures b as real / q as real > 0.0 && b * p > 0
    ensures (a as real / p as real) / (b as real / q as real) == (a * q) as real / (b * p) as real
  {
    MulPositive(b, p);
    CrossMultiply(0, 1, b, q);
    var x, y := a as real / p as real, b as real / q as real;
    var pr, qr := p as real, q as real;
    var z := x / y;
    assert z * y == x;
    Scaled(a, p, q);
    Scaled(b, q, p);
    TripleProduct(z, y, qr, pr);
    assert pr * qr == qr * pr;
    assert z * (b * p) as real == (a * q) as real;
    IsQuotient(z, (a * q) as real, (b * p) as real);
  }

  lemma TripleProduct(z: real, y: real, q: real, p: real)
    ensures z * (y * (q * p)) == (z * y) * (q * p)
  {
  }

  lemma IsQuotient(z: real, num: real, den: real)
    requires den > 0.0 && z * den == num
    ensures z == num / den
  {
  }

  // The percentage is the integer nearest to 100 d / limit, with halves away from zero, and it is
  // missing exactly when the limit is not positive or that integer leaves int64.
  lemma PercentOfIsNearest(d: Decimal, limit: Decimal)
    requires d.Representable() && limit.Representable()
    ensures limit.unscaled <= 0 ==> PercentOf(d, limit) == None
    ensures limit.unscaled > 0 && PercentOf(d, limit) == None ==>
              forall q :: NearestReal(q, 100.0 * Value(d) / Value(limit)) ==> !IsInt64(q)
    ensures forall q :: PercentOf(d, limit) == Some(q) ==> NearestReal(q, 100.0 * Value(d) / Value(limit))
  {
    if limit.unscaled > 0 {
      PercentIsQuotient(d, limit);
      var num, den := PercentNum(d, limit), PercentDen(d, limit);
      RoundedIsNearest(num, den);
      var x := num as real / den as real;
      NearestOfQuotient(RoundHalfAway(num, den), num, den);
      forall q | NearestReal(q, x)
        ensures q == RoundHalfAway(num, den)
      {
        NearestOfQuotient(q, num, den);
        NearestMonotone(num, num, den, q, RoundHalfAway(num, den));
        NearestMonotone(num, num, den, RoundHalfAway(num, den), q);
      }
    }
  }

  // The integer nearest to a real number, with halves away from zero.
  ghost predicate NearestReal(q: int, x: real) {
    && -0.5 <= q as real - x <= 0.5
    && (q as real - x == 0.5 ==> x > 0.0)
    && (q as real - x == -0.5 ==> x < 0.0)
  }

  lemma NearestOfQuotient(q: int, num: int, den: int)
    requires den > 0
    ensures NearestReal(q, num as real / den as real) <==> Nearest(q, num, den)
  {
    var x := num as real / den as real;
    assert x * den as real == num as real;
    NearestOfFactor(q, x, num, den);
  }

  lemma NearestOfFactor(q: int, x: real, num: int, den: int)
    requires den > 0 && x * den as real == num as real
    ensures NearestReal(q, x) <==> Nearest(q, num, den)
  {
    var dr, t, scaled := den as real, q as real - x, q * den - num;
    var h := HalfOrder(t, dr);
    assert h == scaled as real by {
      Product(q, den);
      DifferenceTimes(q as real, x, dr);
    }
    Halves(h, dr, scaled, den);
    SignOrder(x, dr, num);
  }

  lemma HalfOrder(t: real, dr: real) returns (h: real)
    requires dr > 0.0
    ensures h == t * dr
    ensures t < 0.5 <==> h < 0.5 * dr
    ensures t == 0.5 <==> h == 0.5 * dr
    ensures t > -0.5 <==> h > -0.5 * dr
    ensures t == -0.5 <==> h == -0.5 * dr
  {
    h := t * dr;
    RealMulOrder(t, 0.5, dr);
    RealMulOrder(-0.5, t, dr);
  }

  lemma Halves(h: real, dr: real, scaled: int, den: int)
    requires dr == den as real && h == scaled as real
    ensures h < 0.5 * dr <==> 2 * scaled < den
    ensures h == 0.5 * dr <==> 2 * scaled == den
    ensures h > -0.5 * dr <==> 2 * scaled > -den
    ensures h == -0.5 * dr <==> 2 * scaled == -den
  {
    assert (2 * scaled) as real == 2.0 * h;
    assert (-den) as real == -dr;
  }

  lemma SignOrder(x: real, dr: real, num: int)
    requires dr > 0.0 && x * dr == num as real
    ensures x > 0.0 <==> num > 0
    ensures x < 0.0 <==> num < 0
  {
    RealMulOrder(0.0, x, dr);
    RealMulOrder(x, 0.0, dr);
  }

  lemma DifferenceTimes(a: real, b: real, k: real)
    ensures (a - b) * k == a * k - b * k
  {
  }

  // More of the same limit is never a smaller percentage.
  lemma PercentOfMonotone(d: Decimal, e: Decimal, limit: Decimal)
    requires d.Representable() && e.Representable() && limit.Representable()
    requires Value(d) <= Value(e)
    ensures forall p, q :: PercentOf(d, limit) == Some(p) && PercentOf(e, limit) == Some(q) ==> p <= q
  {
    if limit.unscaled > 0 {
      var nd, dd := PercentNum(d, limit), PercentDen(d, limit);
      var ne, de := PercentNum(e, limit), PercentDen(e, limit);
      PercentIsQuotient(d, limit);
      PercentIsQuotient(e, limit);
      QuotientOrder(100.0 * Value(d), 100.0 * Value(e), Value(limit));
      CrossMultiply(ne, de, nd, dd);
      RoundedIsNearest(nd, dd);
      RoundedIsNearest(ne, de);
      NearestScales(RoundHalfAway(nd, dd), nd, dd, de);
      NearestScales(RoundHalfAway(ne, de), ne, de, dd);
      MulPositive(dd, de);
      assert dd * de == de * dd;
      NearestMonotone(nd * de, ne * dd, dd * de, RoundHalfAway(nd, dd), RoundHalfAway(ne, de));
    }
  }

  lemma QuotientOrder(a: real, b: real, k: real)
    requires k > 0.0 && a <= b
    ensures a / k <= b / k
  {
    RealMulOrder(b / k, a / k, k);
  }

  // A used share between nothing and the whole limit is a percentage from 0 to 100.
  lemma PercentOfInRange(d: Decimal, limit: Decimal)
    requires d.Representable() && limit.Representable()
    requires 0.0 <= Value(d) <= Value(limit) && limit.unscaled > 0
    ensures PercentOf(d, limit).Some? && 0 <= PercentOf(d, limit).value <= 100
  {
    var num, den := PercentNum(d, limit), PercentDen(d, limit);
    CrossMultiply(d.unscaled, Pow10(d.scale), 0, 1);
    CrossMultiply(limit.unscaled, Pow10(limit.scale), d.unscaled, Pow10(d.scale));
    assert 0 <= d.unscaled;
    MulOrder(0, d.unscaled, Pow10(limit.scale));
    Reassociate(100, d.unscaled, Pow10(limit.scale));
    RoundedIsNearest(num, den);
    NearestMonotone(0, num, den, 0, RoundHalfAway(num, den));
    NearestMonotone(num, 100 * den, den, RoundHalfAway(num, den), 100);
  }
}
