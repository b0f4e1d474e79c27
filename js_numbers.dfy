/**
 * The JavaScript number conversions the views rely on: `parseInt` without a
 * radix, `String(n)` for integers and `Math.round`. Numbers are modelled as
 * mathematical integers and reals; NaN is `None`.
 */
module JsNumbers {
  import opened Base
  import Text

  /** The value of `c` as a digit in base `radix` (10 or 16), if it is one. */
  function DigitValue(c: char, radix: nat): (d: Option<nat>)
    requires radix == 10 || radix == 16
    ensures d.Some? ==> d.value < radix
  {
    if '0' <= c <= '9' then Some(c as nat - '0' as nat)
    else if radix == 16 && 'a' <= c <= 'f' then Some(c as nat - 'a' as nat + 10)
    else if radix == 16 && 'A' <= c <= 'F' then Some(c as nat - 'A' as nat + 10)
    else None
  }

  predicate IsDigit(c: char, radix: nat)
    requires radix == 10 || radix == 16
  {
    DigitValue(c, radix).Some?
  }

  /** The longest prefix of `s` made of digits of base `radix`. */
  function LeadingDigits(s: string, radix: nat): (r: string)
    requires radix == 10 || radix == 16
    ensures |r| <= |s| && r == s[..|r|]
    ensures forall i :: 0 <= i < |r| ==> IsDigit(r[i], radix)
    ensures |r| < |s| ==> !IsDigit(s[|r|], radix)
  {
    if s != [] && IsDigit(s[0], radix) then
      var t := LeadingDigits(s[1..], radix);
      assert s[..|t| + 1] == [s[0]] + s[1..][..|t|];
      [s[0]] + t
    else []
  }

  /** The number written by a string of digits, most significant first. */
  function DigitsValue(ds: string, radix: nat): nat
    requires radix == 10 || radix == 16
    requires forall i :: 0 <= i < |ds| ==> IsDigit(ds[i], radix)
  {
    if ds == [] then 0
    else
      assert IsDigit(ds[|ds| - 1], radix);
      DigitsValue(ds[..|ds| - 1], radix) * radix + DigitValue(ds[|ds| - 1], radix).value
  }

  /** Drops one leading `+` or `-`. */
  function DropSign(s: string): string {
    if s != [] && (s[0] == '+' || s[0] == '-') then s[1..] else s
  }

  predicate HasHexPrefix(s: string) {
    |s| >= 2 && s[0] == '0' && (s[1] == 'x' || s[1] == 'X')
  }

  /**
   * The unsigned part of `parseInt`: base 16 after `0x`/`0X`, base 10
   * otherwise, then the longest run of digits; no digit at all is NaN.
   */
  function ParseMagnitude(u: string): (r: Option<nat>)
    ensures r.None? <==> if HasHexPrefix(u) then !(|u| > 2 && IsDigit(u[2], 16)) else !(u != [] && IsDigit(u[0], 10))
  {
    var radix := if HasHexPrefix(u) then 16 else 10;
    var body := if radix == 16 then u[2..] else u;
    var z := LeadingDigits(body, radix);
    if z == [] then None else Some(DigitsValue(z, radix))
  }

  /** An optional sign, then the magnitude; a minus sign negates it. */
  function ParseSigned(t: string): (r: Option<int>)
    ensures r.None? <==> ParseMagnitude(DropSign(t)).None?
  {
    var negative := t != [] && t[0] == '-';
    match ParseMagnitude(DropSign(t))
    case None => None
    case Some(m) => Some(if negative then -(m as int) else m as int)
  }

  /**
   * `parseInt(s)`: skip leading white space, read an optional sign, switch to
   * base 16 after `0x`/`0X`, then read the longest run of digits; no digit at
   * all gives NaN.
   */
  function ParseInt(s: string): (r: Option<int>)
    ensures r.None? <==>
      var u := DropSign(Text.TrimStart(s));
      if HasHexPrefix(u) then !(|u| > 2 && IsDigit(u[2], 16)) else !(u != [] && IsDigit(u[0], 10))
  {
    ParseSigned(Text.TrimStart(s))
  }

  predicate AllDigits(ds: string) {
    forall i :: 0 <= i < |ds| ==> IsDigit(ds[i], 10)
  }

  function Pow10(n: nat): (p: nat)
    ensures p >= 1
  {
    if n == 0 then 1 else 10 * Pow10(n - 1)
  }

  predicate IsExponentMark(c: char) {
    c == 'e' || c == 'E'
  }

  /** The index of the first `e` or `E` of `u`, or `|u|` when there is none. */
  function ExponentAt(u: string): (k: nat)
    ensures k <= |u|
    ensures forall i :: 0 <= i < k ==> !IsExponentMark(u[i])
    ensures k < |u| ==> IsExponentMark(u[k])
  {
    if u == [] || IsExponentMark(u[0]) then 0
    else
      var k := ExponentAt(u[1..]);
      assert forall i :: 1 <= i < k + 1 ==> u[i] == u[1..][i - 1];
      k + 1
  }

  /**
   * The digits of a number, before any exponent: digits, digits with a
   * fraction, or a fraction alone (`.5`); anything else is NaN.
   */
  function Mantissa(m: string): (r: Option<real>)
    ensures r.Some? ==> r.value >= 0.0
  {
    var whole := LeadingDigits(m, 10);
    var rest := m[|whole|..];
    if rest == [] then
      (if whole == [] then None else Some(DigitsValue(whole, 10) as real))
    else if rest[0] == '.' && |rest| > 1 && AllDigits(rest[1..]) then
      Some(DigitsValue(whole, 10) as real + DigitsValue(rest[1..], 10) as real / Pow10(|rest| - 1) as real)
    else None
  }

  /** The exponent after `e`: an optional sign and at least one digit. */
  function Exponent(x: string): (r: Option<int>)
  {
    var negative := x != [] && x[0] == '-';
    var ds := if x != [] && (x[0] == '+' || x[0] == '-') then x[1..] else x;
    if ds == [] || !AllDigits(ds) then None
    else Some(if negative then -(DigitsValue(ds, 10) as int) else DigitsValue(ds, 10) as int)
  }

  /** `m * 10^e`. */
  function Scale(m: real, e: int): (r: real)
    ensures m >= 0.0 ==> r >= 0.0
    ensures m > 0.0 ==> r > 0.0
    ensures e == 0 ==> r == m
  {
    if e >= 0 then m * Pow10(e) as real else m / Pow10(-e) as real
  }

  /** The number a text writes after its sign: the mantissa, scaled by the exponent when there is one. */
  function UnsignedNumber(u: string): (r: Option<real>)
    ensures r.Some? ==> r.value >= 0.0
  {
    var k := ExponentAt(u);
    var m := Mantissa(u[..k]);
    var e := if k == |u| then Some(0) else Exponent(u[k + 1..]);
    if m.None? || e.None? then None else Some(Scale(m.value, e.value))
  }

  /**
   * `Number(s)` for the text of a number input, which is empty or a valid
   * floating-point number: the empty string is 0; otherwise an optional
   * minus sign, the mantissa and an optional exponent `e` or `E` with an
   * optional sign. Text of any other form is NaN.
   */
  function ToNumber(s: string): (r: Option<real>)
    ensures r.Some? && r.value < 0.0 ==> s != [] && s[0] == '-'
  {
    if s == [] then Some(0.0)
    else if s[0] == '-' then
      match UnsignedNumber(s[1..])
      case None => None
      case Some(v) => Some(-v)
    else UnsignedNumber(s)
  }

  /** `Number("1e3")` is 1000: the exponent scales the mantissa. */
  lemma ToNumberOfExponent()
    ensures ToNumber("1e3") == Some(1000.0)
  {
    DigitTimesPower("1e3");
  }

  /** `Number("0e5")` is 0. */
  lemma ToNumberOfZeroExponent()
    ensures ToNumber("0e5") == Some(0.0)
  {
    DigitTimesPower("0e5");
  }

  /** `Number("-1e1")` is -10. */
  lemma ToNumberOfNegativeExponent()
    ensures ToNumber("-1e1") == Some(-10.0)
  {
    DigitTimesPower("1e1");
    assert "-1e1"[1..] == "1e1";
  }

  /** A digit, `e` and a digit: the first digit scaled by the power of ten the second gives. */
  lemma DigitTimesPower(u: string)
    requires |u| == 3 && IsDigit(u[0], 10) && u[1] == 'e' && IsDigit(u[2], 10)
    ensures UnsignedNumber(u) == Some(Scale(DigitValue(u[0], 10).value as real, DigitValue(u[2], 10).value))
  {
    var d0, d2 := DigitValue(u[0], 10).value, DigitValue(u[2], 10).value;
    ExponentAtSecond(u);
    assert u[..1] == [u[0]] && u[1 + 1..] == [u[2]];
    MantissaOfDigit(u[0]);
    ExponentOfDigit(u[2]);
    UnsignedOfParts(u, 1, d0 as real, d2);
  }

  /** A digit, a point and a digit: the first digit plus a tenth of the second. */
  lemma DigitPointDigit(u: string)
    requires |u| == 3 && IsDigit(u[0], 10) && u[1] == '.' && IsDigit(u[2], 10)
    ensures ToNumber(u) == Some(DigitValue(u[0], 10).value as real + DigitValue(u[2], 10).value as real / 10.0)
  {
    assert ExponentAt(u) == |u|;
    ToNumberWithoutExponent(u);
    assert LeadingDigits(u[1..], 10) == [];
    assert LeadingDigits(u, 10) == [u[0]];
    assert u[1..][1..] == [u[2]];
    MantissaOfDigit(u[0]);
    assert AllDigits([u[2]]);
    assert DigitsValue([u[2]], 10) == DigitValue(u[2], 10).value;
    assert Pow10(1) == 10;
  }

  /** `parseInt` of a digit followed by neither a digit nor `x` is that digit. */
  lemma ParseIntOfSingleDigit(u: string)
    requires |u| >= 2 && IsDigit(u[0], 10) && !IsDigit(u[1], 10) && u[1] != 'x' && u[1] != 'X'
    ensures ParseInt(u) == Some(DigitValue(u[0], 10).value as int)
  {
    assert LeadingDigits(u[1..], 10) == [];
    assert LeadingDigits(u, 10) == [u[0]];
    assert [u[0]][..0] == [];
    assert DigitsValue([u[0]], 10) == DigitValue(u[0], 10).value;
    ParseIntOfDigitsFirst(u);
  }

  lemma UnsignedOfParts(u: string, k: nat, m: real, e: int)
    requires ExponentAt(u) == k < |u| && Mantissa(u[..k]) == Some(m) && Exponent(u[k + 1..]) == Some(e)
    ensures UnsignedNumber(u) == Some(Scale(m, e))
  {
  }

  lemma ExponentAtSecond(u: string)
    requires |u| >= 2 && !IsExponentMark(u[0]) && IsExponentMark(u[1])
    ensures ExponentAt(u) == 1
  {
    assert ExponentAt(u[1..]) == 0;
  }

  lemma MantissaOfDigit(c: char)
    requires IsDigit(c, 10)
    ensures Mantissa([c]) == Some(DigitValue(c, 10).value as real)
  {
    assert [c][1..] == [] && [c][..0] == [];
    assert LeadingDigits([c], 10) == [c];
    assert DigitsValue([c], 10) == DigitValue(c, 10).value;
  }

  lemma ExponentOfDigit(c: char)
    requires IsDigit(c, 10)
    ensures Exponent([c]) == Some(DigitValue(c, 10).value as int)
  {
    assert [c][0] == c && [c][..0] == [];
    assert AllDigits([c]);
    assert DigitsValue([c], 10) == DigitValue(c, 10).value;
  }

  /** A string of `k` digits stands for a number below `10^k`. */
  lemma {:induction false} DigitsValueBound(ds: string)
    requires AllDigits(ds)
    ensures DigitsValue(ds, 10) < Pow10(|ds|)
  {
    if ds != [] {
      var init := ds[..|ds| - 1];
      DigitsValueBound(init);
      assert IsDigit(ds[|ds| - 1], 10);
    }
  }

  /** `parseInt` of a string that starts with a digit and no `0x` reads its leading digits. */
  lemma ParseIntOfDigitsFirst(s: string)
    requires s != [] && IsDigit(s[0], 10) && !HasHexPrefix(s)
    ensures ParseInt(s) == Some(DigitsValue(LeadingDigits(s, 10), 10) as int)
  {
    assert Text.TrimStart(s) == s;
    assert DropSign(s) == s;
    assert ParseMagnitude(s) == Some(DigitsValue(LeadingDigits(s, 10), 10));
  }

  lemma QuotientBelowOne(n: real, d: real)
    requires 0.0 <= n < d
    ensures 0.0 <= n / d < 1.0
  {
  }

  /** A digit string below the point adds less than one. */
  lemma FractionBelowOne(f: string)
    requires AllDigits(f)
    ensures 0.0 <= DigitsValue(f, 10) as real / Pow10(|f|) as real < 1.0
  {
    DigitsValueBound(f);
    QuotientBelowOne(DigitsValue(f, 10) as real, Pow10(|f|) as real);
  }

  /**
   * The digits before the point are the whole part of the mantissa: no
   * point gives them exactly, and a fraction adds less than one.
   */
  lemma MantissaFloor(m: string)
    requires Mantissa(m).Some?
    ensures Mantissa(m).value.Floor == DigitsValue(LeadingDigits(m, 10), 10)
  {
    var whole := LeadingDigits(m, 10);
    var rest := m[|whole|..];
    if rest != [] {
      var f := rest[1..];
      FractionBelowOne(f);
      FloorOfWholePlusFraction(DigitsValue(whole, 10), DigitsValue(f, 10) as real / Pow10(|f|) as real);
    }
  }

  /** The longest digit prefix is any digit prefix that stops before a non-digit. */
  lemma {:induction false} LeadingDigitsUnique(s: string, n: nat)
    requires n <= |s| && AllDigits(s[..n]) && (n == |s| || !IsDigit(s[n], 10))
    ensures LeadingDigits(s, 10) == s[..n]
  {
    if n > 0 {
      var t := s[1..];
      assert s[..n][0] == s[0];
      assert t[..n - 1] == s[..n][1..];
      assert n - 1 < |t| ==> t[n - 1] == s[n];
      LeadingDigitsUnique(t, n - 1);
      assert s[..n] == [s[0]] + t[..n - 1];
    }
  }

  /** Cutting off the exponent leaves the leading digits of a text in place. */
  lemma LeadingDigitsOfMantissa(s: string)
    ensures LeadingDigits(s, 10) == LeadingDigits(s[..ExponentAt(s)], 10)
  {
    var k := ExponentAt(s);
    var whole := LeadingDigits(s[..k], 10);
    assert AllDigits(s[..|whole|]) by { assert s[..|whole|] == whole; }
    if |whole| < |s| {
      if |whole| < k {
        assert s[|whole|] == s[..k][|whole|];
      } else {
        assert IsExponentMark(s[|whole|]);
      }
    }
    LeadingDigitsUnique(s, |whole|);
  }

  /** A text that `Number` reads as a number has no `0x` prefix. */
  lemma NoHexInNumber(s: string)
    requires s != [] && ToNumber(s).Some?
    ensures !HasHexPrefix(s)
  {
    HexIsNotNumber(s);
  }

  lemma HexIsNotNumber(u: string)
    ensures HasHexPrefix(u) ==> UnsignedNumber(u).None?
  {
    if HasHexPrefix(u) {
      var k := ExponentAt(u);
      assert ExponentAt(u[1..]) >= 1;
      var m := u[..k];
      assert m[1..][0] == 'x' || m[1..][0] == 'X';
      assert LeadingDigits(m, 10) == [m[0]];
    }
  }

  /**
   * `parseInt` of the text of a number input that starts with a digit
   * reads the digits before the point or the exponent: the whole part of
   * the mantissa. Without an exponent that is the number with its fraction
   * dropped; with one it is not (`parseInt("1e3")` is 1).
   */
  lemma ParseIntTruncates(s: string, v: real)
    requires s != [] && IsDigit(s[0], 10)
    requires ToNumber(s) == Some(v)
    ensures ParseInt(s) == Some(Mantissa(s[..ExponentAt(s)]).value.Floor)
    ensures ExponentAt(s) == |s| ==> ParseInt(s) == Some(v.Floor)
  {
    var k := ExponentAt(s);
    assert s[0] != '-';
    NoHexInNumber(s);
    ParseIntOfDigitsFirst(s);
    LeadingDigitsOfMantissa(s);
    MantissaFloor(s[..k]);
    if k == |s| {
      ToNumberWithoutExponent(s);
    }
  }

  /** Without an exponent and a sign, `Number` reads the mantissa alone. */
  lemma ToNumberWithoutExponent(s: string)
    requires s != [] && s[0] != '-' && ExponentAt(s) == |s|
    ensures s[..ExponentAt(s)] == s
    ensures ToNumber(s) == Mantissa(s)
  {
    assert s[..|s|] == s;
    assert Scale(0.0, 0) == 0.0;
  }

  /**
   * The text of a number input that holds a number at or below zero never
   * reads as a positive integer under `parseInt`.
   */
  lemma ParseIntOfNonPositive(s: string)
    requires ToNumber(s).Some? && ToNumber(s).value <= 0.0
    ensures ParseInt(s).None? || ParseInt(s).value <= 0
  {
    if s != [] {
      assert Text.TrimStart(s) == s by { assert !Text.IsSpace(s[0]) by { NotSpaceInNumber(s); } }
      if IsDigit(s[0], 10) {
        ParseIntTruncates(s, ToNumber(s).value);
      } else if s[0] != '-' {
        assert LeadingDigits(s, 10) == [];
        assert DropSign(s) == s;
        assert !HasHexPrefix(s);
      }
    }
  }

  /** A string that `Number` reads as a number starts with a minus sign, a digit or a point. */
  lemma NotSpaceInNumber(s: string)
    requires s != [] && ToNumber(s).Some?
    ensures s[0] == '-' || s[0] == '.' || IsDigit(s[0], 10)
  {
    if s[0] != '-' && !IsDigit(s[0], 10) {
      var k := ExponentAt(s);
      var mant := s[..k];
      assert k > 0 && mant[0] == s[0];
      assert LeadingDigits(mant, 10) == [];
    }
  }

  lemma FloorOfWholePlusFraction(w: int, frac: real)
    requires 0.0 <= frac < 1.0
    ensures (w as real + frac).Floor == w
  {
  }

  /** The decimal digits of a natural number, without leading zeros. */
  function DecimalDigits(n: nat): (r: string)
    ensures (r != [] && '1' <= r[0] <= '9') || r == "0"
    ensures forall i :: 0 <= i < |r| ==> '0' <= r[i] <= '9'
    decreases n
  {
    var last := ['0' + (n % 10) as char];
    if n < 10 then last else DecimalDigits(n / 10) + last
  }

  /** `String(n)` for an integer `n` (as produced by React when it renders a number). */
  function DecimalString(n: int): (r: string)
    ensures r != [] && !Text.IsSpace(r[0])
  {
    if n < 0 then "-" + DecimalDigits(-n) else DecimalDigits(n)
  }

  lemma {:induction false} DecimalDigitsValue(n: nat)
    ensures forall i :: 0 <= i < |DecimalDigits(n)| ==> IsDigit(DecimalDigits(n)[i], 10)
    ensures DigitsValue(DecimalDigits(n), 10) == n
    decreases n
  {
    var r := DecimalDigits(n);
    if n >= 10 {
      DecimalDigitsValue(n / 10);
      assert r[..|r| - 1] == DecimalDigits(n / 10);
    }
  }

  /** A string made only of digits is its own longest digit prefix. */
  lemma {:induction false} LeadingDigitsOfDigits(ds: string, radix: nat)
    requires radix == 10 || radix == 16
    requires forall i :: 0 <= i < |ds| ==> IsDigit(ds[i], radix)
    ensures LeadingDigits(ds, radix) == ds
  {
    if ds != [] {
      LeadingDigitsOfDigits(ds[1..], radix);
      assert ds == [ds[0]] + ds[1..];
    }
  }

  /** Reading back the digits of an integer gives the integer: `parseInt(String(n)) === n`. */
  lemma ParseIntOfDecimalString(n: int)
    ensures ParseInt(DecimalString(n)) == Some(n)
  {
    var s := DecimalString(n);
    var m: nat := if n < 0 then -n else n;
    var ds := DecimalDigits(m);
    DecimalDigitsValue(m);
    assert Text.TrimStart(s) == s;
    DropSignOfDecimalString(n);
    assert s[0] == '-' <==> n < 0;
    assert ParseMagnitude(ds) == Some(m) by {
      assert !HasHexPrefix(ds);
      LeadingDigitsOfDigits(ds, 10);
    }
  }

  /** The sign `parseInt` reads off `String(n)` leaves the digits of `|n|`. */
  lemma DropSignOfDecimalString(n: int)
    ensures DropSign(DecimalString(n)) == DecimalDigits(if n < 0 then -n else n)
  {
    if n < 0 {
      assert ("-" + DecimalDigits(-n))[1..] == DecimalDigits(-n);
    }
  }

  /** `parseInt("")` is NaN. */
  lemma ParseIntOfEmpty()
    ensures ParseInt("") == None
  {
  }

  /** `Math.round(x)`: the nearest integer, halves rounded up. */
  function Round(x: real): (r: int)
    ensures x - 1.0 / 2.0 < r as real <= x + 1.0 / 2.0
  {
    (x + 1.0 / 2.0).Floor
  }

  /** Rounding is monotone. */
  lemma RoundMonotone(x: real, y: real)
    requires x <= y
    ensures Round(x) <= Round(y)
  {
  }

  /** An integer rounds to itself. */
  lemma RoundOfInteger(n: int)
    ensures Round(n as real) == n
  {
  }
}
