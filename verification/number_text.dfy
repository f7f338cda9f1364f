/**
 * Conversions between strings and JavaScript numbers: `parseFloat` (used by the
 * aggregates), `ToNumber` on a string (used by relational comparison) and
 * `ToString` on a number (used when a number is part of a group key).
 */
module NumberText {
  import opened Wrappers
  import opened JsNumber

  predicate IsDigit(c: char) {
    '0' <= c <= '9'
  }

  function DigitValue(c: char): nat
    requires IsDigit(c)
  {
    c as int - '0' as int
  }

  function DigitChar(d: nat): (c: char)
    requires d < 10
    ensures IsDigit(c) && DigitValue(c) == d
  {
    ('0' as int + d) as char
  }

  predicate AllDigits(s: string) {
    forall i :: 0 <= i < |s| ==> IsDigit(s[i])
  }

  /** The value of a run of decimal digits, most significant first. */
  function DigitsValue(s: string): nat
    requires AllDigits(s)
  {
    if |s| == 0 then 0 else 10 * DigitsValue(s[..|s| - 1]) + DigitValue(s[|s| - 1])
  }

  /** Canonical decimal text of a natural number: no sign, no leading zero. */
  function NatToString(n: nat): (s: string)
    ensures |s| > 0 && AllDigits(s)
    ensures DigitsValue(s) == n
    ensures s[0] == '0' ==> s == "0"
  {
    if n < 10 then [DigitChar(n)]
    else
      var s := NatToString(n / 10) + [DigitChar(n % 10)];
      assert s[..|s| - 1] == NatToString(n / 10);
      s
  }

  function IntToString(i: int): string {
    if i < 0 then "-" + NatToString(-i) else NatToString(i)
  }

  /** Number of consecutive decimal digits of `u` starting at `i`. */
  function DigitRun(u: string, i: nat): (n: nat)
    requires i <= |u|
    ensures i + n <= |u|
    ensures AllDigits(u[i..i + n])
    ensures i + n < |u| ==> !IsDigit(u[i + n])
    decreases |u| - i
  {
    if i < |u| && IsDigit(u[i]) then
      var n := 1 + DigitRun(u, i + 1);
      assert u[i..i + n] == [u[i]] + u[i + 1..i + n];
      n
    else 0
  }

  function Pow10(k: nat): (p: nat)
    ensures p > 0
  {
    if k == 0 then 1 else 10 * Pow10(k - 1)
  }

  /** `x * 10^e` for any integer exponent. */
  function Scale10(x: real, e: int): real {
    if e >= 0 then x * Pow10(e) as real else x / Pow10(-e) as real
  }

  /**
   * The optional exponent part `e`/`E`, sign, digits of a decimal literal at
   * position `i`: its value and length, or (0, 0) if there is none.
   */
  function ScanExponent(u: string, i: nat): (r: (int, nat))
    requires i <= |u|
    ensures i + r.1 <= |u|
  {
    if i < |u| && (u[i] == 'e' || u[i] == 'E') then
      var k := if i + 1 < |u| && (u[i + 1] == '+' || u[i + 1] == '-') then 1 else 0;
      var n := DigitRun(u, i + 1 + k);
      if n == 0 then (0, 0)
      else
        var v: int := DigitsValue(u[i + 1 + k..i + 1 + k + n]);
        (if k == 1 && u[i + 1] == '-' then -v else v, 1 + k + n)
    else (0, 0)
  }

  /**
   * The value of the digits `u[..n1]` followed by the fraction digits `u[f..f + n2]`,
   * read as `int.frac`.
   */
  function Mantissa(u: string, n1: nat, f: nat, n2: nat): real
    requires n1 <= f && f + n2 <= |u|
    requires AllDigits(u[..n1]) && AllDigits(u[f..f + n2])
  {
    var digits := u[..n1] + u[f..f + n2];
    assert AllDigits(digits) by {
      forall i | 0 <= i < |digits| ensures IsDigit(digits[i]) {
        if i < n1 { assert digits[i] == u[..n1][i]; } else { assert digits[i] == u[f..f + n2][i - n1]; }
      }
    }
    DigitsValue(digits) as real / Pow10(n2) as real
  }

  /**
   * The longest prefix of `u` that is an unsigned StrDecimalLiteral: `Infinity`,
   * or digits with an optional `.` fraction (at least one digit in all) and an
   * optional exponent. Returns its value and its length.
   */
  function ScanUnsigned(u: string): (r: Option<(Number, nat)>)
    ensures r.Some? ==> 0 < r.value.1 <= |u| && (r.value.0.Fin? || r.value.0.PosInf?)
  {
    if StartsInfinity(u) then Some((PosInf, 8))
    else
      var n1 := DigitRun(u, 0);
      assert u[..n1] == u[0..0 + n1];
      var dot := n1 < |u| && u[n1] == '.';
      var f := if dot then n1 + 1 else n1;
      var n2 := if dot then DigitRun(u, f) else 0;
      if n1 == 0 && n2 == 0 then None
      else
        var exponent := ScanExponent(u, f + n2);
        Some((Fin(Scale10(Mantissa(u, n1, f, n2), exponent.0)), f + n2 + exponent.1))
  }

  predicate StartsInfinity(u: string) {
    |u| >= 8 && u[..8] == "Infinity"
  }

  /** The longest prefix of `t` that is a StrDecimalLiteral (an optional sign, then an unsigned one). */
  function ScanDecimal(t: string): (r: Option<(Number, nat)>)
    ensures r.Some? ==> 0 < r.value.1 <= |t| && !r.value.0.NaN?
  {
    var k := if 0 < |t| && (t[0] == '+' || t[0] == '-') then 1 else 0;
    match ScanUnsigned(t[k..])
    case None => None
    case Some((v, n)) => Some((if k == 1 && t[0] == '-' then Negate(v) else v, k + n))
  }

  /** WhiteSpace and LineTerminator code points, which number parsing skips. */
  predicate IsJsSpace(c: char) {
    var k := c as int;
    k == 0x09 || k == 0x0A || k == 0x0B || k == 0x0C || k == 0x0D || k == 0x20 ||
    k == 0xA0 || k == 0x1680 || (0x2000 <= k <= 0x200A) || k == 0x2028 || k == 0x2029 ||
    k == 0x202F || k == 0x205F || k == 0x3000 || k == 0xFEFF
  }

  function TrimStart(s: string): (t: string)
    ensures |t| > 0 ==> !IsJsSpace(t[0])
    ensures |t| <= |s| && t == s[|s| - |t|..]
  {
    if |s| > 0 && IsJsSpace(s[0]) then TrimStart(s[1..]) else s
  }

  function TrimEnd(s: string): (t: string)
    ensures |t| > 0 ==> !IsJsSpace(t[|t| - 1])
    ensures |t| <= |s| && t == s[..|t|]
  {
    if |s| > 0 && IsJsSpace(s[|s| - 1]) then TrimEnd(s[..|s| - 1]) else s
  }

  /** `parseFloat(s)`: skip leading white space, read the longest decimal literal prefix, else NaN. */
  function ParseFloat(s: string): (r: Number)
    ensures r.NaN? <==> ScanDecimal(TrimStart(s)).None?
  {
    match ScanDecimal(TrimStart(s))
    case Some((v, _)) => v
    case None => NaN
  }

  /** Value of a digit in bases up to 16, or -1. */
  function RadixDigit(c: char): int {
    if '0' <= c <= '9' then c as int - '0' as int
    else if 'a' <= c <= 'f' then c as int - 'a' as int + 10
    else if 'A' <= c <= 'F' then c as int - 'A' as int + 10
    else -1
  }

  predicate AllRadix(s: string, base: nat) {
    forall i :: 0 <= i < |s| ==> 0 <= RadixDigit(s[i]) < base
  }

  function RadixValue(s: string, base: nat): nat
    requires AllRadix(s, base)
  {
    if |s| == 0 then 0 else base * RadixValue(s[..|s| - 1], base) + RadixDigit(s[|s| - 1])
  }

  /** The base a `0x`, `0o` or `0b` prefix letter selects, or 0. */
  function RadixOf(c: char): nat {
    if c == 'x' || c == 'X' then 16
    else if c == 'o' || c == 'O' then 8
    else if c == 'b' || c == 'B' then 2
    else 0
  }

  /**
   * `ToNumber(s)` for a string (StringToNumber): white space around the literal
   * is ignored, an empty string is 0, and the whole remaining text must be a
   * decimal literal or an unsigned `0x`/`0o`/`0b` literal; anything else is NaN.
   */
  function StringToNumber(s: string): Number {
    var t := TrimEnd(TrimStart(s));
    if |t| == 0 then Fin(0.0)
    else if |t| > 2 && t[0] == '0' && RadixOf(t[1]) > 0 then
      if AllRadix(t[2..], RadixOf(t[1])) then Fin(RadixValue(t[2..], RadixOf(t[1])) as real) else NaN
    else
      match ScanDecimal(t)
      case Some((v, n)) => if n == |t| then v else NaN
      case None => NaN
  }

  /** Up to `k` decimal digits of a fraction 0 <= f < 1, stopping once it is exhausted. */
  function FractionDigits(f: real, k: nat): string
    requires 0.0 <= f < 1.0
    decreases k
  {
    if k == 0 || f == 0.0 then ""
    else
      var d := (f * 10.0).Floor;
      assert 0 <= d < 10;
      [DigitChar(d)] + FractionDigits(f * 10.0 - d as real, k - 1)
  }

  /**
   * `String(n)`: exact for NaN, the infinities and integers below 10^21; other
   * finite values are written as a truncated decimal expansion.
   */
  function ToString(n: Number): string {
    match n
    case NaN => "NaN"
    case PosInf => "Infinity"
    case NegInf => "-Infinity"
    case Fin(x) =>
      if x == x.Floor as real then IntToString(x.Floor)
      else
        var a := if x < 0.0 then -x else x;
        (if x < 0.0 then "-" else "") + NatToString(a.Floor) + "." + FractionDigits(a - a.Floor as real, 20)
  }

  /** The decimal text of a natural number is, in full, a decimal literal of that value. */
  lemma {:induction false} ScanNat(n: nat)
    ensures ScanDecimal(NatToString(n)) == Some((Fin(n as real), |NatToString(n)|))
  {
    ScanNatThen(n, "");
    assert NatToString(n) + "" == NatToString(n);
  }

  /** `parseFloat` reads back the decimal text of every natural number. */
  lemma {:induction false} ParseFloatNat(n: nat)
    ensures ParseFloat(NatToString(n)) == Fin(n as real)
  {
    var s := NatToString(n);
    assert !IsJsSpace(s[0]);
    assert TrimStart(s) == s;
    ScanNat(n);
  }

  /** `ToNumber` reads back the decimal text of every natural number too. */
  lemma {:induction false} StringToNumberNat(n: nat)
    ensures StringToNumber(NatToString(n)) == Fin(n as real)
  {
    var s := NatToString(n);
    assert !IsJsSpace(s[0]) && !IsJsSpace(s[|s| - 1]);
    assert TrimStart(s) == s;
    assert TrimEnd(s) == s;
    assert s[0] == '0' ==> |s| == 1;
    ScanNat(n);
  }

  /** Text that cannot continue a decimal literal and does not end in white space. */
  predicate Trailer(t: string) {
    |t| > 0 && !IsDigit(t[0]) && t[0] != '.' && t[0] != 'e' && t[0] != 'E' && RadixOf(t[0]) == 0 &&
    !IsJsSpace(t[|t| - 1])
  }

  lemma {:induction false} DigitRunStops(s: string, t: string, i: nat)
    requires AllDigits(s) && i <= |s|
    requires |t| == 0 || !IsDigit(t[0])
    ensures DigitRun(s + t, i) == |s| - i
    decreases |s| - i
  {
    if i < |s| {
      assert (s + t)[i] == s[i];
      DigitRunStops(s, t, i + 1);
    } else if |t| > 0 {
      assert (s + t)[i] == t[0];
    }
  }

  /** The decimal text of `n` is read back as `n` when what follows cannot continue it. */
  lemma {:induction false} ScanNatThen(n: nat, t: string)
    requires |t| == 0 || (!IsDigit(t[0]) && t[0] != '.' && t[0] != 'e' && t[0] != 'E')
    ensures ScanDecimal(NatToString(n) + t) == Some((Fin(n as real), |NatToString(n)|))
  {
    var s := NatToString(n);
    var u := s + t;
    assert u[0] == s[0];
    assert u[0..] == u;
    DigitRunStops(s, t, 0);
    assert |t| > 0 ==> u[|s|] == t[0];
    assert u[..|s|] == s;
    ScanWholeNumber(u, |s|);
  }

  /** A run of `m` digits not followed by a fraction or an exponent is read as an integer. */
  lemma ScanWholeNumber(u: string, m: nat)
    requires 0 < m <= |u| && DigitRun(u, 0) == m
    requires m < |u| ==> u[m] != '.' && u[m] != 'e' && u[m] != 'E'
    ensures AllDigits(u[..m])
    ensures ScanUnsigned(u) == Some((Fin(DigitsValue(u[..m]) as real), m))
  {
    assert u[..m] == u[0..0 + m];
    assert IsDigit(u[..m][0]);
    assert !StartsInfinity(u) by {
      if |u| >= 8 { assert u[..8][0] == u[0] == u[..m][0]; }
    }
    assert u[..m] + u[m..m + 0] == u[..m];
    var x := DigitsValue(u[..m]) as real;
    MantissaWhole(u, m);
    ScaleByOne(x);
    assert ScanExponent(u, m) == (0, 0);
    assert !(m < |u| && u[m] == '.');
    assert ScanUnsigned(u) == Some((Fin(Scale10(Mantissa(u, m, m, 0), 0)), m + 0 + 0));
  }

  lemma ScaleByOne(x: real)
    ensures Scale10(x, 0) == x
  {
    assert Pow10(0) == 1;
  }

  lemma MantissaWhole(u: string, m: nat)
    requires m <= |u| && AllDigits(u[..m])
    ensures Mantissa(u, m, m, 0) == DigitsValue(u[..m]) as real
  {
    var digits := u[..m] + u[m..m + 0];
    assert digits == u[..m];
    assert Pow10(0) == 1;
    var v := DigitsValue(digits) as real;
    assert v / 1 as real == v;
  }

  /**
   * `parseFloat` ignores what follows the longest literal prefix; `ToNumber`
   * does not, so a number followed by other text is NaN to a comparison.
   */
  lemma {:induction false} TrailingText(n: nat, t: string)
    requires Trailer(t)
    ensures ParseFloat(NatToString(n) + t) == Fin(n as real)
    ensures StringToNumber(NatToString(n) + t).NaN?
  {
    var s := NatToString(n);
    var u := s + t;
    assert u[0] == s[0] && u[|u| - 1] == t[|t| - 1];
    assert TrimStart(u) == u;
    assert TrimEnd(u) == u;
    ScanNatThen(n, t);
    assert |u| > 2 && u[0] == '0' ==> u[1] == t[0];
  }
}
