/**
 * WHERE clauses: one comparison per clause (`evaluateCondition`), combined
 * conjunctively with `every`, applied by `filter`.
 */
module Where {
  import opened Wrappers
  import opened Rows

  /** `{ field, operator, value }` as the parser produces it. */
  datatype Clause = Clause(field: string, op: string, value: string)

  /** The one error a query can raise once its tables are loaded. */
  datatype Error = UnsupportedOperator(op: string)

  predicate Supported(op: string) {
    op == "=" || op == "!=" || op == ">" || op == "<" || op == ">=" || op == "<="
  }

  /** `evaluateCondition(row, clause)`: the row's value against the clause's literal. */
  function Evaluate(row: Row, c: Clause): (r: Result<bool, Error>)
    ensures r.Err? <==> !Supported(c.op)
    ensures r.Err? ==> r.error == UnsupportedOperator(c.op)
    ensures c.op == "=" ==> r == Ok(Get(row, c.field) == Str(c.value))
    ensures c.op == "!=" ==> r == Ok(Get(row, c.field) != Str(c.value))
  {
    var v := Get(row, c.field);
    var lit := Str(c.value);
    if c.op == "=" then Ok(StrictEq(v, lit))
    else if c.op == "!=" then Ok(!StrictEq(v, lit))
    else if c.op == ">" then Ok(JsLess(lit, v) == Some(true))
    else if c.op == "<" then Ok(JsLess(v, lit) == Some(true))
    else if c.op == ">=" then Ok(JsLess(v, lit) == Some(false))
    else if c.op == "<=" then Ok(JsLess(lit, v) == Some(false))
    else Err(UnsupportedOperator(c.op))
  }

  /**
   * The relational operators compare a string cell with the literal
   * lexicographically, and are false for a missing cell.
   */
  lemma EvaluateCompare(row: Row, c: Clause)
    ensures c.op in {">", "<", ">=", "<="} && Get(row, c.field).Undef? ==> Evaluate(row, c) == Ok(false)
    ensures Get(row, c.field).Str? ==>
              var s := Get(row, c.field).s;
              && (c.op == "<" ==> Evaluate(row, c) == Ok(StrLess(s, c.value)))
              && (c.op == ">" ==> Evaluate(row, c) == Ok(StrLess(c.value, s)))
              && (c.op == ">=" ==> Evaluate(row, c) == Ok(!StrLess(s, c.value)))
              && (c.op == "<=" ==> Evaluate(row, c) == Ok(!StrLess(c.value, s)))
  {
  }

  /** `clauses.every(c => evaluateCondition(row, c))`, which stops at the first false clause. */
  function Every(row: Row, cs: seq<Clause>): Result<bool, Error> {
    if |cs| == 0 then Ok(true)
    else
      match Evaluate(row, cs[0])
      case Err(e) => Err(e)
      case Ok(false) => Ok(false)
      case Ok(true) => Every(row, cs[1..])
  }

  /** `every` is true exactly when each clause evaluates to true. */
  lemma {:induction false} EveryTrue(row: Row, cs: seq<Clause>)
    ensures Every(row, cs) == Ok(true) <==> Satisfies(row, cs)
    decreases |cs|
  {
    if |cs| > 0 {
      EveryTrue(row, cs[1..]);
      assert forall k :: 1 <= k < |cs| ==> cs[k] == cs[1..][k - 1];
    }
  }

  /** `every` raises exactly when a clause with an unsupported operator is reached, every earlier clause being true. */
  lemma {:induction false} EveryRaises(row: Row, cs: seq<Clause>)
    ensures Every(row, cs).Err? <==> exists k :: 0 <= k < |cs| && !Supported(cs[k].op) && Satisfies(row, cs[..k])
    decreases |cs|
  {
    if |cs| > 0 {
      var tail := cs[1..];
      EveryRaises(row, tail);
      forall k | 0 < k < |cs|
        ensures Satisfies(row, cs[..k]) <==> Evaluate(row, cs[0]) == Ok(true) && Satisfies(row, tail[..k - 1])
      {
        SatisfiesCons(row, cs, k);
      }
      assert Satisfies(row, cs[..0]);
      if exists k :: 0 <= k < |tail| && !Supported(tail[k].op) && Satisfies(row, tail[..k]) {
        var k :| 0 <= k < |tail| && !Supported(tail[k].op) && Satisfies(row, tail[..k]);
        assert cs[k + 1] == tail[k];
      }
      if exists k :: 0 < k < |cs| && !Supported(cs[k].op) && Satisfies(row, cs[..k]) {
        var k :| 0 < k < |cs| && !Supported(cs[k].op) && Satisfies(row, cs[..k]);
        assert cs[k] == tail[k - 1];
      }
    }
  }

  lemma SatisfiesCons(row: Row, cs: seq<Clause>, k: nat)
    requires 0 < k <= |cs|
    ensures Satisfies(row, cs[..k]) <==> Evaluate(row, cs[0]) == Ok(true) && Satisfies(row, cs[1..][..k - 1])
  {
    var a := cs[..k];
    var b := cs[1..][..k - 1];
    if Satisfies(row, a) {
      assert Evaluate(row, a[0]) == Ok(true);
      forall m | 0 <= m < k - 1 ensures Evaluate(row, b[m]) == Ok(true) {
        assert b[m] == a[m + 1];
      }
    }
    if Evaluate(row, cs[0]) == Ok(true) && Satisfies(row, b) {
      forall m | 0 <= m < k ensures Evaluate(row, a[m]) == Ok(true) {
        if m > 0 {
          assert a[m] == b[m - 1];
        }
      }
    }
  }

  /** A row satisfies the clauses when each of them evaluates to true. */
  predicate Satisfies(row: Row, cs: seq<Clause>) {
    forall k :: 0 <= k < |cs| ==> Evaluate(row, cs[k]) == Ok(true)
  }

  /** The reference filter: the rows that satisfy every clause, in their original order. */
  function Keep(rows: seq<Row>, cs: seq<Clause>): (r: seq<Row>)
    ensures |r| <= |rows|
  {
    if |rows| == 0 then []
    else (if Satisfies(rows[0], cs) then [rows[0]] else []) + Keep(rows[1..], cs)
  }

  /** `Keep` keeps exactly the rows that satisfy every clause. */
  lemma {:induction false} KeepMembers(rows: seq<Row>, cs: seq<Clause>)
    ensures forall x :: x in Keep(rows, cs) <==> x in rows && Satisfies(x, cs)
    decreases |rows|
  {
    if |rows| > 0 {
      KeepMembers(rows[1..], cs);
      assert rows == [rows[0]] + rows[1..];
    }
  }

  /** `rows.filter(row => every(row))`, which stops at the first row whose clauses raise. */
  function FilterRows(rows: seq<Row>, cs: seq<Clause>): Result<seq<Row>, Error> {
    if |rows| == 0 then Ok([])
    else
      match Every(rows[0], cs)
      case Err(e) => Err(e)
      case Ok(keep) =>
        match FilterRows(rows[1..], cs)
        case Err(e) => Err(e)
        case Ok(rest) => Ok(if keep then [rows[0]] + rest else rest)
  }

  /** The WHERE step: with no clauses the rows are returned as they are. */
  function Filter(rows: seq<Row>, cs: seq<Clause>): Result<seq<Row>, Error> {
    if |cs| > 0 then FilterRows(rows, cs) else Ok(rows)
  }

  predicate AllSupported(cs: seq<Clause>) {
    forall k :: 0 <= k < |cs| ==> Supported(cs[k].op)
  }

  /** When every operator is supported, filtering succeeds and keeps exactly the satisfying rows, in order. */
  lemma {:induction false} FilterIsKeep(rows: seq<Row>, cs: seq<Clause>)
    requires AllSupported(cs)
    ensures Filter(rows, cs) == Ok(Keep(rows, cs))
  {
    if |cs| == 0 {
      KeepAll(rows);
    } else {
      FilterRowsIsKeep(rows, cs);
    }
  }

  lemma {:induction false} FilterRowsIsKeep(rows: seq<Row>, cs: seq<Clause>)
    requires AllSupported(cs)
    ensures FilterRows(rows, cs) == Ok(Keep(rows, cs))
    decreases |rows|
  {
    if |rows| > 0 {
      FilterRowsIsKeep(rows[1..], cs);
      EveryOk(rows[0], cs);
      var rest := Keep(rows[1..], cs);
      assert [] + rest == rest;
      assert Keep(rows, cs) == (if Satisfies(rows[0], cs) then [rows[0]] else []) + rest;
    }
  }

  lemma {:induction false} EveryOk(row: Row, cs: seq<Clause>)
    requires AllSupported(cs)
    ensures Every(row, cs) == Ok(Satisfies(row, cs))
    decreases |cs|
  {
    if |cs| > 0 {
      assert Supported(cs[0].op);
      EveryOk(row, cs[1..]);
      assert forall k :: 1 <= k < |cs| ==> cs[k] == cs[1..][k - 1];
    }
  }

  /** No clauses keep every row. */
  lemma {:induction false} KeepAll(rows: seq<Row>)
    ensures Keep(rows, []) == rows
    decreases |rows|
  {
    if |rows| > 0 {
      KeepAll(rows[1..]);
      assert Satisfies(rows[0], []);
      assert [rows[0]] + rows[1..] == rows;
    }
  }

  /** Filtering preserves order: filtering a concatenation filters each part. */
  lemma {:induction false} KeepAppend(a: seq<Row>, b: seq<Row>, cs: seq<Clause>)
    ensures Keep(a + b, cs) == Keep(a, cs) + Keep(b, cs)
    decreases |a|
  {
    if |a| > 0 {
      var head := if Satisfies(a[0], cs) then [a[0]] else [];
      assert (a + b)[0] == a[0];
      assert (a + b)[1..] == a[1..] + b;
      KeepAppend(a[1..], b, cs);
      assert Keep(a + b, cs) == head + Keep(a[1..] + b, cs);
      AppendAssoc(head, Keep(a[1..], cs), Keep(b, cs));
    } else {
      assert a + b == b;
      assert Keep(a, cs) == [];
      assert [] + Keep(b, cs) == Keep(b, cs);
    }
  }

  /** Adding a clause filters the result further, so it never grows it. */
  lemma {:induction false} KeepMoreClauses(rows: seq<Row>, cs: seq<Clause>, c: Clause)
    ensures Keep(rows, cs + [c]) == Keep(Keep(rows, cs), [c])
    decreases |rows|
  {
    if |rows| > 0 {
      KeepMoreClauses(rows[1..], cs, c);
      var x := rows[0];
      SatisfiesAppend(x, cs, c);
      var k := Keep(rows, cs);
      assert Keep(rows, cs + [c]) == (if Satisfies(x, cs + [c]) then [x] else []) + Keep(rows[1..], cs + [c]);
      if Satisfies(x, cs) {
        assert k == [x] + Keep(rows[1..], cs);
        assert k[0] == x && k[1..] == Keep(rows[1..], cs);
        assert Keep(k, [c]) == (if Satisfies(x, [c]) then [x] else []) + Keep(k[1..], [c]);
      } else {
        assert k == Keep(rows[1..], cs);
      }
    }
  }

  lemma SatisfiesAppend(x: Row, cs: seq<Clause>, c: Clause)
    ensures Satisfies(x, cs + [c]) <==> Satisfies(x, cs) && Satisfies(x, [c])
  {
    assert forall k :: 0 <= k < |cs| ==> (cs + [c])[k] == cs[k];
    assert (cs + [c])[|cs|] == c;
  }

  /** Filtering raises exactly when some row reaches an unsupported operator before a false clause. */
  lemma {:induction false} FilterRowsError(rows: seq<Row>, cs: seq<Clause>)
    ensures FilterRows(rows, cs).Err? <==> exists i :: 0 <= i < |rows| && Every(rows[i], cs).Err?
    decreases |rows|
  {
    if |rows| > 0 {
      FilterRowsError(rows[1..], cs);
      assert forall i :: 1 <= i < |rows| ==> rows[i] == rows[1..][i - 1];
      if exists i :: 0 <= i < |rows| && Every(rows[i], cs).Err? {
        var i :| 0 <= i < |rows| && Every(rows[i], cs).Err?;
        if i > 0 { assert Every(rows[1..][i - 1], cs).Err?; }
      }
    }
  }

  /** A raised error names the offending operator. */
  lemma {:induction false} FilterErrorNamesOperator(rows: seq<Row>, cs: seq<Clause>)
    requires Filter(rows, cs).Err?
    ensures exists k :: 0 <= k < |cs| && !Supported(cs[k].op) && Filter(rows, cs).error == UnsupportedOperator(cs[k].op)
  {
    FilterRowsErrorOp(rows, cs);
  }

  lemma {:induction false} FilterRowsErrorOp(rows: seq<Row>, cs: seq<Clause>)
    requires FilterRows(rows, cs).Err?
    ensures exists k :: 0 <= k < |cs| && !Supported(cs[k].op) && FilterRows(rows, cs).error == UnsupportedOperator(cs[k].op)
    decreases |rows|
  {
    if Every(rows[0], cs).Err? {
      EveryErrorOp(rows[0], cs);
    } else {
      FilterRowsErrorOp(rows[1..], cs);
    }
  }

  lemma {:induction false} EveryErrorOp(row: Row, cs: seq<Clause>)
    requires Every(row, cs).Err?
    ensures exists k :: 0 <= k < |cs| && !Supported(cs[k].op) && Every(row, cs).error == UnsupportedOperator(cs[k].op)
    decreases |cs|
  {
    if Evaluate(row, cs[0]).Ok? {
      EveryErrorOp(row, cs[1..]);
      var k :| 0 <= k < |cs[1..]| && !Supported(cs[1..][k].op) && Every(row, cs[1..]).error == UnsupportedOperator(cs[1..][k].op);
      assert cs[1..][k] == cs[k + 1];
    }
  }

  /** An empty table never raises, whatever the operators. */
  lemma EmptyNeverRaises(cs: seq<Clause>)
    ensures Filter([], cs) == Ok([])
  {
  }
}
