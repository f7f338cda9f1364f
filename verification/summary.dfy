/**
 * Aggregates without GROUP BY (`SELECT COUNT(*), SUM(x) FROM t`): the
 * filtered rows collapse into a single row holding one value per aggregate.
 */
module Summary {
  import opened Wrappers
  import opened JsNumber
  import opened Rows
  import opened AggExpr

  /** The aggregate a field asks for: `/(\w+)\((\*|\w+)\)/` and a known name. */
  function SummaryColumn(f: string): (r: Option<Call>)
    ensures r.Some? ==> Exec(f, true) == r
    ensures r.Some? ==> Upper(r.value.func) in {"COUNT", "SUM", "AVG", "MIN", "MAX"}
    ensures Exec(f, true).Some? && Upper(Exec(f, true).value.func) in {"COUNT", "SUM", "AVG", "MIN", "MAX"} ==>
              r == Exec(f, true)
  {
    match Exec(f, true)
    case None => None
    case Some(c) =>
      if Upper(c.func) in {"COUNT", "SUM", "AVG", "MIN", "MAX"} then Some(c) else None
  }

  /** The fields that become columns of the summary row. */
  function SummaryColumns(fields: seq<string>): set<string> {
    set f | f in fields && SummaryColumn(f).Some?
  }

  /** `rows.map(row => parseFloat(row[x]))`. */
  function Column(rows: seq<Row>, x: string): (r: seq<Number>)
    ensures |r| == |rows|
    ensures forall i :: 0 <= i < |rows| ==> r[i] == ParseValue(Get(rows[i], x))
  {
    seq(|rows|, i requires 0 <= i < |rows| => ParseValue(Get(rows[i], x)))
  }

  /** The value of summary column `f` over `rows`. */
  function SummaryValue(rows: seq<Row>, f: string): Value
    requires SummaryColumn(f).Some?
  {
    var c := SummaryColumn(f).value;
    var name := Upper(c.func);
    var xs := Column(rows, c.arg);
    if name == "COUNT" then Num(Fin(|rows| as real))
    else if name == "SUM" then Num(SumOf(xs))
    else if name == "AVG" then Num(DivCount(SumOf(xs), |rows|))
    else if name == "MIN" then Num(MinOf(xs))
    else Num(MaxOf(xs))
  }

  /** `fields.forEach(...)` writing the summary columns into `r`. */
  function SetSummary(r: Row, rows: seq<Row>, fields: seq<string>): (out: Row)
    ensures out.Keys == r.Keys + SummaryColumns(fields)
    ensures forall f :: f in SummaryColumns(fields) ==> out[f] == SummaryValue(rows, f)
    ensures forall k :: k in r && k !in SummaryColumns(fields) ==> out[k] == r[k]
    decreases |fields|
  {
    if |fields| == 0 then r
    else
      var f := fields[0];
      var r' := if SummaryColumn(f).Some? then r[f := SummaryValue(rows, f)] else r;
      SummaryColumnsCons(fields);
      SetSummary(r', rows, fields[1..])
  }

  /** The summary columns of a field list: those of its head, then those of the rest. */
  lemma SummaryColumnsCons(fields: seq<string>)
    requires |fields| > 0
    ensures SummaryColumns(fields) ==
            (if SummaryColumn(fields[0]).Some? then {fields[0]} else {}) + SummaryColumns(fields[1..])
  {
    assert fields == [fields[0]] + fields[1..];
  }

  /** The single result row; a field that names no known aggregate is left out of it. */
  function Summarize(rows: seq<Row>, fields: seq<string>): (r: Row)
    ensures r.Keys == SummaryColumns(fields)
    ensures forall f :: f in fields && SummaryColumn(f).Some? ==> r[f] == SummaryValue(rows, f)
  {
    SetSummary(map[], rows, fields)
  }

  /** COUNT counts the rows, whatever its argument. */
  lemma SummaryCount(rows: seq<Row>, fields: seq<string>, f: string)
    requires f in fields && SummaryColumn(f).Some? && Upper(SummaryColumn(f).value.func) == "COUNT"
    ensures Summarize(rows, fields)[f] == Num(Fin(|rows| as real))
  {
  }

  /** Over no rows: COUNT and SUM are 0, AVG is NaN, MIN is Infinity and MAX is -Infinity. */
  lemma SummaryEmpty(fields: seq<string>, f: string)
    requires f in fields && SummaryColumn(f).Some?
    ensures Upper(SummaryColumn(f).value.func) in {"COUNT", "SUM"} ==> Summarize([], fields)[f] == Num(Fin(0.0))
    ensures Upper(SummaryColumn(f).value.func) == "AVG" ==> Summarize([], fields)[f] == Num(NaN)
    ensures Upper(SummaryColumn(f).value.func) == "MIN" ==> Summarize([], fields)[f] == Num(PosInf)
    ensures Upper(SummaryColumn(f).value.func) == "MAX" ==> Summarize([], fields)[f] == Num(NegInf)
  {
    assert Column([], SummaryColumn(f).value.arg) == [];
  }

  /**
   * Over finite values the summary is the textbook one: SUM is the exact sum,
   * AVG is the sum over the count and lies between MIN and MAX.
   */
  lemma SummaryFinite(rows: seq<Row>, x: string)
    requires |rows| > 0 && AllFinite(Column(rows, x))
    ensures SumOf(Column(rows, x)) == Fin(RealSum(Reals(Column(rows, x))))
    ensures DivCount(SumOf(Column(rows, x)), |rows|) == Fin(RealSum(Reals(Column(rows, x))) / |rows| as real)
    ensures MinOf(Column(rows, x)).Fin? && MaxOf(Column(rows, x)).Fin?
    ensures MinOf(Column(rows, x)).r <= RealSum(Reals(Column(rows, x))) / |rows| as real <= MaxOf(Column(rows, x)).r
  {
    AverageBetween(Column(rows, x));
  }

  lemma AverageBetween(xs: seq<Number>)
    requires |xs| > 0 && AllFinite(xs)
    ensures MinOf(xs).Fin? && MaxOf(xs).Fin?
    ensures MinOf(xs).r <= RealSum(Reals(xs)) / |xs| as real <= MaxOf(xs).r
  {
    MinMaxFinite(xs);
    var lo := MinOf(xs);
    var hi := MaxOf(xs);
    TermsBetween(xs, lo, hi);
    MeanBetween(Reals(xs), lo.r, hi.r);
  }

  /** The mean of terms in `[lo, hi]` lies in `[lo, hi]`. */
  lemma MeanBetween(rs: seq<real>, lo: real, hi: real)
    requires |rs| > 0 && forall i :: 0 <= i < |rs| ==> lo <= rs[i] <= hi
    ensures lo <= RealSum(rs) / |rs| as real <= hi
  {
    SumBounds(rs, lo, hi);
    DivBounds(RealSum(rs), |rs| as real, lo, hi);
  }

  lemma MinMaxFinite(xs: seq<Number>)
    requires |xs| > 0 && AllFinite(xs)
    ensures MinOf(xs).Fin? && MaxOf(xs).Fin?
    ensures forall i :: 0 <= i < |xs| ==> !Less(xs[i], MinOf(xs)) && !Less(MaxOf(xs), xs[i])
  {
    assert !HasNaN(xs);
    var i :| 0 <= i < |xs| && xs[i] == MinOf(xs);
    var j :| 0 <= j < |xs| && xs[j] == MaxOf(xs);
  }

  lemma TermsBetween(xs: seq<Number>, lo: Number, hi: Number)
    requires AllFinite(xs) && lo.Fin? && hi.Fin?
    requires forall i :: 0 <= i < |xs| ==> !Less(xs[i], lo) && !Less(hi, xs[i])
    ensures forall i :: 0 <= i < |xs| ==> lo.r <= Reals(xs)[i] <= hi.r
  {
    forall i | 0 <= i < |xs| ensures lo.r <= Reals(xs)[i] <= hi.r {
      assert !Less(xs[i], lo) && !Less(hi, xs[i]);
    }
  }

  lemma DivBounds(s: real, n: real, lo: real, hi: real)
    requires n > 0.0 && n * lo <= s <= n * hi
    ensures lo <= s / n <= hi
  {
    assert s / n * n == s;
  }

  /** `n * lo <= sum <= n * hi` when every term lies in `[lo, hi]`. */
  lemma {:induction false} SumBounds(rs: seq<real>, lo: real, hi: real)
    requires forall i :: 0 <= i < |rs| ==> lo <= rs[i] <= hi
    ensures |rs| as real * lo <= RealSum(rs) <= |rs| as real * hi
    decreases |rs|
  {
    if |rs| > 0 {
      var n := |rs| - 1;
      SumBounds(rs[..n], lo, hi);
      assert RealSum(rs) == RealSum(rs[..n]) + rs[n];
      assert |rs| as real * lo == n as real * lo + lo;
      assert |rs| as real * hi == n as real * hi + hi;
    }
  }
}
