/** The part of JavaScript's string-to-number conversion (`Number(s)`, and
    `isNaN(s)`, which converts the same way) that the page-count check uses.
    The conversion itself is a parameter of the model: any function with the
    property `IsStringToNumber` may stand for it, and `DecimalToNumber` is one
    concrete such function covering signed decimal integers. */
module JsNumber {
  import opened JsString

  /** A JavaScript number as the conversion can produce it. Finite values are
      kept as exact reals; rounding to the nearest double is not modelled. */
  datatype Num = NaN | Finite(value: real) | PosInfinity | NegInfinity

  /** JavaScript's `n <= 0`: any comparison with NaN is false, so this is
      not the negation of `n > 0`. */
  predicate AtMostZero(n: Num)
    ensures AtMostZero(n) <==> !n.NaN? && !IsPositive(n)
  {
    match n
    case NaN => false
    case Finite(v) => v <= 0.0
    case PosInfinity => false
    case NegInfinity => true
  }

  /** A JavaScript number strictly above zero: a positive finite value or
      positive infinity. */
  predicate IsPositive(n: Num)
  {
    n.PosInfinity? || (n.Finite? && n.value > 0.0)
  }

  /** Every character a string numeric literal can hold (StringNumericLiteral,
      section 7.1.4.1 of ECMA-262): digits, signs, the decimal point, the
      exponent marker, the radix prefixes `0x`, `0o`, `0b`, the hexadecimal
      digits and the letters of `Infinity`. A text holding any other
      character, outside its surrounding whitespace, converts to NaN. */
  predicate IsNumericLiteralChar(c: char)
  {
    IsDigit(c) ||
    c in "+-." ||            // signs and the decimal point
    c in "eExXoObB" ||       // the exponent marker and the radix prefixes
    c in "abcdefABCDEF" ||   // hexadecimal digits
    c in "Infinity"          // the letters of Infinity
  }

  /** What the page-count check relies on about the conversion: it ignores
      the same surrounding whitespace `trim` removes, and a blank text
      converts to zero (section 7.1.4.1.1 of ECMA-262, StringToNumber). */
  ghost predicate IsStringToNumber(toNumber: string -> Num)
    ensures IsStringToNumber(toNumber) ==>
      forall s :: AllWhitespace(s) ==> toNumber(s) == Finite(0.0)
  {
    AllWhitespaceTrimsEmpty();
    toNumber("") == Finite(0.0) &&
    forall s :: toNumber(s) == toNumber(Trim(s))
  }

  predicate IsDigit(c: char)
  {
    '0' as int <= c as int <= '9' as int
  }

  /** One or more decimal digits and nothing else. */
  predicate IsDigits(s: string)
  {
    |s| > 0 && forall k :: 0 <= k < |s| ==> IsDigit(s[k])
  }

  /** The value of a string of decimal digits, most significant first. */
  function DigitsValue(s: string): (v: nat)
    requires forall k :: 0 <= k < |s| ==> IsDigit(s[k])
  {
    if s == [] then 0
    else
      assert IsDigit(s[|s| - 1]);
      DigitsValue(s[..|s| - 1]) * 10 + (s[|s| - 1] as int - '0' as int)
  }

  /** A digit string denotes a positive value exactly when one of its digits
      is not `0`. */
  lemma {:induction false} DigitsValuePositive(s: string)
    requires forall k :: 0 <= k < |s| ==> IsDigit(s[k])
    ensures DigitsValue(s) > 0 <==> exists k :: 0 <= k < |s| && s[k] != '0'
  {
    if s != [] {
      var p := s[..|s| - 1];
      DigitsValuePositive(p);
      if DigitsValue(p) > 0 {
        var k :| 0 <= k < |p| && p[k] != '0';
        assert s[k] != '0';
      }
      if exists k :: 0 <= k < |s| && s[k] != '0' {
        var k :| 0 <= k < |s| && s[k] != '0';
        if k < |p| { assert p[k] != '0'; }
      }
    }
  }

  /** A stand-in for the conversion on the texts a page count usually holds:
      an optional `+` or `-` followed by decimal digits, with surrounding
      whitespace ignored, and a blank text is zero. Every other text is NaN
      here, which differs from JavaScript: fractions ("2.5"), exponents
      ("1e3"), radix literals ("0x1A") and "Infinity" are numbers there. */
  function DecimalToNumber(s: string): (r: Num)
    ensures !r.PosInfinity? && !r.NegInfinity?
    ensures r.Finite? ==> r.value == r.value.Floor as real
    ensures AllWhitespace(s) ==> r == Finite(0.0)
  {
    BlankIffAllWhitespace(s);
    var t := Trim(s);
    if t == "" then Finite(0.0)
    else if IsDigits(t) then Finite(DigitsValue(t) as real)
    else if t[0] == '+' && IsDigits(t[1..]) then Finite(DigitsValue(t[1..]) as real)
    else if t[0] == '-' && IsDigits(t[1..]) then
      var v: int := 0 - DigitsValue(t[1..]);
      Finite(v as real)
    else NaN
  }

  /** Where the stand-in parts from JavaScript: these texts are numbers there
      (Infinity, 2.5, 1000 and 26) but NaN here. */
  lemma DecimalToNumberDiffers(s: string)
    requires Trim(s) in ["Infinity", "2.5", "1e3", "0x1A"]
    ensures DecimalToNumber(s) == NaN
  {
    var t := Trim(s);
    if t == "Infinity" {
      assert !IsDigit(t[0]);
    } else {
      assert !IsDigit(t[1]);
    }
  }

  /** The stand-in has the properties the form relies on. */
  lemma DecimalToNumberIsStringToNumber()
    ensures IsStringToNumber(DecimalToNumber)
  {
    TrimIdentity("");
    forall s: string
      ensures DecimalToNumber(s) == DecimalToNumber(Trim(s))
    {
      TrimIdempotent(s);
    }
  }
}
