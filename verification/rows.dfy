/**
 * Rows and the JavaScript values they hold. A row is a plain object read by
 * name; a table is a sequence of rows.
 */
module Rows {
  import opened Wrappers
  import opened JsNumber
  import NumberText

  /**
   * A value in a row: a string read from a table, a number produced by an
   * aggregate, the `null` a join pads with, or `undefined`. `undefined` may also
   * be stored under a key, which keeps it distinct from a missing key.
   */
  datatype Value = Str(s: string) | Num(n: Number) | Null | Undef

  type Row = map<string, Value>

  /** `row[name]`: a missing key reads as `undefined`. */
  function Get(row: Row, name: string): Value {
    if name in row then row[name] else Undef
  }

  /** `a === b`: like structural equality, except that NaN is not equal to itself. */
  predicate StrictEq(a: Value, b: Value) {
    match (a, b)
    case (Str(x), Str(y)) => x == y
    case (Num(x), Num(y)) => !x.NaN? && x == y
    case (Null, Null) => true
    case (Undef, Undef) => true
    case _ => false
  }

  lemma StrictEqIsEquality(a: Value, b: Value)
    ensures StrictEq(a, b) <==> a == b && a != Num(NaN)
  {
  }

  /**
   * `fields.reduce((acc, f) => { acc[f] = pick(f); return acc }, {})`: an object
   * with exactly the keys in `fields`.
   */
  function Assemble(fields: seq<string>, pick: string -> Value): (r: Row)
    ensures r.Keys == set f | f in fields
    ensures forall f :: f in r ==> r[f] == pick(f)
  {
    if |fields| == 0 then map[]
    else
      var last := fields[|fields| - 1];
      var prefix := fields[..|fields| - 1];
      assert (set f | f in fields) == (set f | f in prefix) + {last} by {
        assert fields == prefix + [last];
      }
      Assemble(prefix, pick)[last := pick(last)]
  }

  /**
   * `fields.forEach(f => out[f] = row[f])`: the row cut down to `fields`, with
   * `undefined` where it has no value. The projection of a plain query and the
   * group-by values a new group records are both built this way.
   */
  function Select(row: Row, fields: seq<string>): (r: Row)
    ensures r.Keys == set f | f in fields
    ensures forall f :: f in r ==> r[f] == Get(row, f)
  {
    Assemble(fields, f => Get(row, f))
  }

  /** Selecting the fields a row already has exactly returns the row. */
  lemma SelectSame(row: Row, fields: seq<string>)
    requires row.Keys == set f | f in fields
    ensures Select(row, fields) == row
  {
  }

  /** Concatenation of row sequences is associative. */
  lemma AppendAssoc(a: seq<Row>, b: seq<Row>, c: seq<Row>)
    ensures a + (b + c) == (a + b) + c
  {
  }

  /** Lexicographic `<` on strings: a proper prefix is smaller, else the first differing character decides. */
  predicate StrLess(a: string, b: string) {
    if |a| == 0 then |b| > 0
    else if |b| == 0 then false
    else if a[0] == b[0] then StrLess(a[1..], b[1..])
    else a[0] < b[0]
  }

  /** `ToNumber(v)` for the primitives a row can hold. */
  function ToNumeric(v: Value): Number {
    match v
    case Str(s) => NumberText.StringToNumber(s)
    case Num(n) => n
    case Null => Fin(0.0)
    case Undef => NaN
  }

  /**
   * `a < b` (IsLessThan): two strings compare lexicographically, anything else
   * numerically after `ToNumber`; None is JavaScript's `undefined`, the answer
   * when either side is NaN.
   */
  function JsLess(a: Value, b: Value): (r: Option<bool>)
    ensures (a.Undef? || b.Undef?) && !(a.Str? && b.Str?) ==> r.None?
    ensures a.Str? && b.Str? ==> r == Some(StrLess(a.s, b.s))
  {
    if a.Str? && b.Str? then Some(StrLess(a.s, b.s))
    else
      var x := ToNumeric(a);
      var y := ToNumeric(b);
      if x.NaN? || y.NaN? then None else Some(Less(x, y))
  }

  /** `parseFloat(v)`: `null` and `undefined` read as the text "null" and "undefined", hence NaN. */
  function ParseValue(v: Value): Number {
    match v
    case Str(s) => NumberText.ParseFloat(s)
    case Num(n) => n
    case _ => NaN
  }

  /** The text `Array.prototype.join` writes for one element: `null` and `undefined` write nothing. */
  function JoinText(v: Value): string {
    match v
    case Str(s) => s
    case Num(n) => NumberText.ToString(n)
    case _ => ""
  }

  /** `StrLess` is a strict total order on strings. */
  lemma {:induction false} StrLessIrreflexive(a: string)
    ensures !StrLess(a, a)
    decreases |a|
  {
    if |a| > 0 {
      StrLessIrreflexive(a[1..]);
    }
  }

  lemma {:induction false} StrLessTransitive(a: string, b: string, c: string)
    requires StrLess(a, b) && StrLess(b, c)
    ensures StrLess(a, c)
    decreases |a|
  {
    if |a| > 0 && a[0] == b[0] && b[0] == c[0] {
      StrLessTransitive(a[1..], b[1..], c[1..]);
    }
  }

  lemma {:induction false} StrLessTotal(a: string, b: string)
    ensures a == b || StrLess(a, b) || StrLess(b, a)
    decreases |a|
  {
    if |a| > 0 && |b| > 0 && a[0] == b[0] {
      StrLessTotal(a[1..], b[1..]);
      if a[1..] == b[1..] {
        assert a == [a[0]] + a[1..] && b == [b[0]] + b[1..];
      }
    }
  }
}
