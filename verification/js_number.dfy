/**
 * JavaScript numbers as the query engine produces them (COUNT, SUM, MIN, MAX, AVG).
 * Exact real arithmetic stands in for IEEE-754 doubles; NaN and the two
 * infinities keep their JavaScript rules. Signed zero is not distinguished.
 */
module JsNumber {

  datatype Number = NaN | PosInf | NegInf | Fin(r: real)

  /** The truthiness of a number, as `x || d` tests it: NaN and zero are falsy. */
  predicate Truthy(x: Number) {
    !x.NaN? && x != Fin(0.0)
  }

  /** `a + b`. */
  function Add(a: Number, b: Number): Number {
    match (a, b)
    case (NaN, _) => NaN
    case (_, NaN) => NaN
    case (PosInf, NegInf) => NaN
    case (NegInf, PosInf) => NaN
    case (PosInf, _) => PosInf
    case (NegInf, _) => NegInf
    case (_, PosInf) => PosInf
    case (_, NegInf) => NegInf
    case (Fin(x), Fin(y)) => Fin(x + y)
  }

  function Negate(a: Number): Number {
    match a
    case NaN => NaN
    case PosInf => NegInf
    case NegInf => PosInf
    case Fin(x) => Fin(-x)
  }

  /** Position on the extended real line: -1, 0 (finite) or 1. */
  function Side(a: Number): int {
    match a
    case NegInf => -1
    case PosInf => 1
    case _ => 0
  }

  /** `a < b` for two numbers neither of which is NaN; false when either is NaN. */
  predicate Less(a: Number, b: Number) {
    !a.NaN? && !b.NaN? &&
    (if a.Fin? && b.Fin? then a.r < b.r else Side(a) < Side(b))
  }

  /** `Math.min(a, b)`. */
  function Min2(a: Number, b: Number): Number {
    if a.NaN? || b.NaN? then NaN else if Less(b, a) then b else a
  }

  /** `Math.max(a, b)`. */
  function Max2(a: Number, b: Number): Number {
    if a.NaN? || b.NaN? then NaN else if Less(a, b) then b else a
  }

  predicate HasNaN(xs: seq<Number>) {
    exists i :: 0 <= i < |xs| && xs[i].NaN?
  }

  /** `Math.min(...xs)`: +Infinity for no arguments, NaN if any argument is NaN. */
  function MinOf(xs: seq<Number>): (r: Number)
    ensures HasNaN(xs) <==> r.NaN?
    ensures !HasNaN(xs) ==> forall i :: 0 <= i < |xs| ==> !Less(xs[i], r)
    ensures !HasNaN(xs) && |xs| > 0 ==> r in xs
    ensures |xs| == 0 ==> r == PosInf
  {
    if |xs| == 0 then PosInf
    else
      assert HasNaN(xs) <==> HasNaN(xs[..|xs| - 1]) || xs[|xs| - 1].NaN? by {
        if HasNaN(xs) {
          var i :| 0 <= i < |xs| && xs[i].NaN?;
          if i < |xs| - 1 { assert xs[..|xs| - 1][i] == xs[i]; }
        }
      }
      Min2(MinOf(xs[..|xs| - 1]), xs[|xs| - 1])
  }

  /** `Math.max(...xs)`: -Infinity for no arguments, NaN if any argument is NaN. */
  function MaxOf(xs: seq<Number>): (r: Number)
    ensures HasNaN(xs) <==> r.NaN?
    ensures !HasNaN(xs) ==> forall i :: 0 <= i < |xs| ==> !Less(r, xs[i])
    ensures !HasNaN(xs) && |xs| > 0 ==> r in xs
    ensures |xs| == 0 ==> r == NegInf
  {
    if |xs| == 0 then NegInf
    else
      assert HasNaN(xs) <==> HasNaN(xs[..|xs| - 1]) || xs[|xs| - 1].NaN? by {
        if HasNaN(xs) {
          var i :| 0 <= i < |xs| && xs[i].NaN?;
          if i < |xs| - 1 { assert xs[..|xs| - 1][i] == xs[i]; }
        }
      }
      Max2(MaxOf(xs[..|xs| - 1]), xs[|xs| - 1])
  }

  /** Exact sum of finite numbers. */
  function RealSum(xs: seq<real>): real {
    if |xs| == 0 then 0.0 else RealSum(xs[..|xs| - 1]) + xs[|xs| - 1]
  }

  predicate AllFinite(xs: seq<Number>) {
    forall i :: 0 <= i < |xs| ==> xs[i].Fin?
  }

  function Reals(xs: seq<Number>): (r: seq<real>)
    requires AllFinite(xs)
    ensures |r| == |xs| && forall i :: 0 <= i < |xs| ==> r[i] == xs[i].r
  {
    seq(|xs|, i requires 0 <= i < |xs| => xs[i].r)
  }

  /** `xs.reduce((acc, x) => acc + x, 0)`. */
  function SumOf(xs: seq<Number>): (r: Number)
    ensures HasNaN(xs) ==> r.NaN?
    ensures AllFinite(xs) ==> r == Fin(RealSum(Reals(xs)))
  {
    if |xs| == 0 then Fin(0.0)
    else
      var init := xs[..|xs| - 1];
      assert HasNaN(xs) ==> HasNaN(init) || xs[|xs| - 1].NaN? by {
        if HasNaN(xs) {
          var i :| 0 <= i < |xs| && xs[i].NaN?;
          if i < |xs| - 1 { assert init[i] == xs[i]; }
        }
      }
      assert AllFinite(xs) ==> AllFinite(init) && Reals(xs)[..|xs| - 1] == Reals(init);
      Add(SumOf(init), xs[|xs| - 1])
  }

  /** `a / n` for a count `n`; division by zero follows IEEE-754. */
  function DivCount(a: Number, n: nat): (r: Number)
    ensures a.Fin? && n > 0 ==> r == Fin(a.r / n as real)
    ensures a == Fin(0.0) && n == 0 ==> r.NaN?
    ensures a.NaN? ==> r.NaN?
  {
    match a
    case NaN => NaN
    case PosInf => PosInf
    case NegInf => NegInf
    case Fin(x) =>
      if n > 0 then Fin(x / n as real)
      else if x == 0.0 then NaN
      else if x > 0.0 then PosInf
      else NegInf
  }

  /** Math.min and Math.max agree with the usual order on NaN-free arguments. */
  lemma {:induction false} MinLeMax(xs: seq<Number>)
    requires |xs| > 0 && !HasNaN(xs)
    ensures !Less(MaxOf(xs), MinOf(xs))
  {
    var lo := MinOf(xs);
    var i :| 0 <= i < |xs| && xs[i] == lo;
    assert !Less(MaxOf(xs), xs[i]);
  }
}
