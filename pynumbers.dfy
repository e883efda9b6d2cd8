/** The parts of Python's `int(str)` and `float(str)` that decide whether a
    stored text is a number and which one: surrounding whitespace, a sign,
    decimal digits grouped by single underscores, a fraction, an exponent,
    and the words `inf`, `infinity` and `nan`. */
module PyNumbers {
  import opened Common

  /** `str.isspace()` on ASCII: space, tab to carriage return, and the
      separators 0x1C to 0x1F. */
  predicate IsSpace(c: char)
  {
    c == ' ' || 9 <= c as int <= 13 || 28 <= c as int <= 31
  }

  function StripLeft(s: string): (r: string)
    ensures |r| <= |s| && r == s[|s| - |r|..]
    ensures forall i :: 0 <= i < |s| - |r| ==> IsSpace(s[i])
    ensures |r| > 0 ==> !IsSpace(r[0])
  {
    if |s| > 0 && IsSpace(s[0]) then StripLeft(s[1..]) else s
  }

  function StripRight(s: string): (r: string)
    ensures |r| <= |s| && r == s[..|r|]
    ensures forall i :: |r| <= i < |s| ==> IsSpace(s[i])
    ensures |r| > 0 ==> !IsSpace(r[|r| - 1])
  {
    if |s| > 0 && IsSpace(s[|s| - 1]) then StripRight(s[..|s| - 1]) else s
  }

  /** `s.strip()`. */
  function Strip(s: string): string
  {
    StripRight(StripLeft(s))
  }

  lemma {:induction false} StripUnspaced(s: string)
    requires |s| > 0 && !IsSpace(s[0]) && !IsSpace(s[|s| - 1])
    ensures Strip(s) == s
  {
  }

  predicate DigitsOrUnderscores(s: string)
  {
    forall i :: 0 <= i < |s| ==> IsDigit(s[i]) || s[i] == '_'
  }

  /** Decimal digits, each underscore standing between two digits. */
  predicate DigitPart(s: string)
  {
    && |s| > 0 && IsDigit(s[0]) && IsDigit(s[|s| - 1])
    && DigitsOrUnderscores(s)
    && forall i :: 0 <= i < |s| && s[i] == '_' ==> i + 1 < |s| && IsDigit(s[i + 1])
  }

  /** The digits of a digit part, underscores dropped. */
  function Digits(s: string): (r: string)
    requires DigitsOrUnderscores(s)
    ensures forall i :: 0 <= i < |r| ==> IsDigit(r[i])
  {
    if |s| == 0 then []
    else if s[0] == '_' then Digits(s[1..])
    else [s[0]] + Digits(s[1..])
  }

  lemma {:induction false} DigitsOfPlain(s: string)
    requires forall i :: 0 <= i < |s| ==> IsDigit(s[i])
    ensures Digits(s) == s
  {
    if |s| > 0 {
      DigitsOfPlain(s[1..]);
    }
  }

  function Value(s: string): nat
    requires DigitsOrUnderscores(s)
  {
    DigitsValue(Digits(s))
  }

  /** The sign of a number and the text after it. */
  function SplitSign(t: string): (bool, string)
  {
    if |t| > 0 && (t[0] == '+' || t[0] == '-') then (t[0] == '-', t[1..]) else (false, t)
  }

  /** `int(s)`: Some(n) when the text parses as a base-10 integer, None where
      Python raises `ValueError`. */
  function ParseInt(s: string): Option<int>
  {
    var (negative, body) := SplitSign(Strip(s));
    if DigitPart(body) then
      var v: int := Value(body);
      Some(if negative then -v else v)
    else None
  }

  /** The digits of a rendered natural number form a digit part of that value. */
  lemma {:induction false} RenderedDigits(m: nat)
    ensures DigitPart(NatToString(m)) && Value(NatToString(m)) == m
  {
    var digits := NatToString(m);
    DigitsOfPlain(digits);
    NatToStringValue(m);
  }

  /** A rendered integer has no surrounding whitespace and splits into its
      sign and the digits of its magnitude. */
  lemma {:induction false} RenderedSplits(n: int)
    ensures Strip(IntToString(n)) == IntToString(n)
    ensures SplitSign(IntToString(n)) == (n < 0, NatToString(if n < 0 then -n else n))
    ensures |IntToString(n)| > 0 && IsDigit(IntToString(n)[|IntToString(n)| - 1])
  {
    var s := IntToString(n);
    var digits := NatToString(if n < 0 then -n else n);
    assert IsDigit(digits[0]) && IsDigit(digits[|digits| - 1]);
    if n < 0 {
      assert s == "-" + digits;
      assert s[1..] == digits;
      assert s[|s| - 1] == digits[|digits| - 1];
    }
    StripUnspaced(s);
  }

  /** `str(n)` reads back as `n`. */
  lemma {:induction false} ParseIntOfRendered(n: int)
    ensures ParseInt(IntToString(n)) == Some(n)
  {
    RenderedSplits(n);
    RenderedDigits(if n < 0 then -n else n);
  }

  function Pow10(k: nat): (r: nat)
    ensures r > 0
  {
    if k == 0 then 1 else 10 * Pow10(k - 1)
  }

  /** A float as `float()` produces it: a finite value (kept exact), an
      infinity, or not-a-number. */
  datatype PyFloat = Finite(x: real) | Infinity(negative: bool) | NaN

  /** The first position holding `a` or `b`. */
  function FirstOf(s: string, a: char, b: char): (r: Option<nat>)
    ensures r.Some? ==> r.value < |s| && (s[r.value] == a || s[r.value] == b)
                        && forall k :: 0 <= k < r.value ==> s[k] != a && s[k] != b
    ensures r.None? ==> forall k :: 0 <= k < |s| ==> s[k] != a && s[k] != b
  {
    if |s| == 0 then None
    else if s[0] == a || s[0] == b then Some(0)
    else match FirstOf(s[1..], a, b)
      case Some(k) => Some(k + 1)
      case None => None
  }

  /** A mantissa `int[.frac]` or `.frac` as (all its digits as an integer,
      number of fraction digits). */
  function Mantissa(m: string): Option<(nat, nat)>
  {
    match FirstOf(m, '.', '.')
    case None => if DigitPart(m) then Some((Value(m), 0)) else None
    case Some(d) =>
      var ip := m[..d];
      var fp := m[d + 1..];
      if (ip == [] || DigitPart(ip)) && (fp == [] || DigitPart(fp)) && !(ip == [] && fp == []) then
        var f := |Digits(fp)|;
        Some((Value(ip) * Pow10(f) + Value(fp), f))
      else None
  }

  /** The exponent after `e` or `E`. */
  function Exponent(e: string): Option<int>
  {
    var (negative, body) := SplitSign(e);
    if DigitPart(body) then
      var v: int := Value(body);
      Some(if negative then -v else v)
    else None
  }

  function Scale(x: real, e: int): real
  {
    if e >= 0 then x * Pow10(e) as real else x / Pow10(-e) as real
  }

  /** An unsigned decimal number, value kept exact. */
  function Decimal(r: string): Option<real>
  {
    match FirstOf(r, 'e', 'E')
    case None =>
      (match Mantissa(r)
       case Some(mf) => Some(mf.0 as real / Pow10(mf.1) as real)
       case None => None)
    case Some(k) =>
      match (Mantissa(r[..k]), Exponent(r[k + 1..]))
      case (Some(mf), Some(e)) => Some(Scale(mf.0 as real / Pow10(mf.1) as real, e))
      case _ => None
  }

  /** `float(s)`: Some(value) when the text parses, None where Python raises
      `ValueError`. Rounding to the nearest double is not modelled. */
  function ParseFloat(s: string): Option<PyFloat>
  {
    var (negative, body) := SplitSign(Strip(s));
    var word := Lower(body);
    if word == "inf" || word == "infinity" then Some(Infinity(negative))
    else if word == "nan" then Some(NaN)
    else match Decimal(body)
      case Some(x) => Some(Finite(if negative then -x else x))
      case None => None
  }

  lemma {:induction false} DigitPartLacks(s: string, a: char, b: char)
    requires DigitPart(s)
    requires !IsDigit(a) && a != '_' && !IsDigit(b) && b != '_'
    ensures FirstOf(s, a, b).None?
  {
  }

  lemma {:induction false} DecimalOfDigitPart(s: string)
    requires DigitPart(s)
    ensures Decimal(s) == Some(Value(s) as real)
  {
    DigitPartLacks(s, 'e', 'E');
    DigitPartLacks(s, '.', '.');
  }

  /** Every text `int()` accepts, `float()` accepts too, with the same value. */
  lemma {:induction false} IntsAreFloats(s: string)
    requires ParseInt(s).Some?
    ensures ParseFloat(s) == Some(Finite(ParseInt(s).value as real))
  {
    var body := SplitSign(Strip(s)).1;
    DecimalOfDigitPart(body);
    var word := Lower(body);
    assert IsDigit(word[0]) by {
      assert word[0] == LowerChar(body[0]);
    }
    assert word != "inf" && word != "infinity" && word != "nan" by {
      assert !IsDigit('i') && !IsDigit('n');
    }
  }
}
