/**
 * Three places where the query engine, as written, does not compute what it
 * evidently means to: each is stated here next to the intended behaviour.
 */
module Findings {
  import opened Wrappers
  import opened JsNumber
  import opened Rows
  import opened AggExpr
  import opened Where
  import opened Grouping
  import opened Engine
  import NumberText
  import PropertyOrder

  // ---------------------------------------------------------------------------
  // GROUP BY groups twice

  /** Filtering keeps a subsequence, so keys that were distinct stay distinct. */
  lemma {:induction false} KeepUniqueKeys(rows: seq<Row>, cs: seq<Clause>, gb: seq<string>)
    requires UniqueKeys(rows, gb)
    ensures UniqueKeys(Keep(rows, cs), gb)
    decreases |rows|
  {
    if |rows| > 0 {
      var rest := rows[1..];
      assert UniqueKeys(rest, gb) by {
        forall i, j | 0 <= i < j < |rest| ensures Key(rest[i], gb) != Key(rest[j], gb) {
          assert rest[i] == rows[i + 1] && rest[j] == rows[j + 1];
        }
      }
      KeepUniqueKeys(rest, cs, gb);
      var kr := Keep(rest, cs);
      KeepMembers(rest, cs);
      if Satisfies(rows[0], cs) {
        var k := [rows[0]] + kr;
        forall j | 0 <= j < |kr| ensures Key(rows[0], gb) != Key(kr[j], gb) {
          assert kr[j] in rest;
          var m :| 0 <= m < |rest| && rest[m] == kr[j];
          assert rest[m] == rows[m + 1];
        }
        assert forall j :: 1 <= j < |k| ==> k[j] == kr[j - 1];
      } else {
        assert Keep(rows, cs) == [] + kr;
      }
    }
  }

  /**
   * As written, a GROUP BY query groups the joined rows, filters the group
   * rows, and groups them again. The group rows already have distinct keys,
   * so the second pass puts each in a group of its own: there is one result
   * row per surviving group row and every COUNT column reads 1.
   */
  lemma GroupByCountsOne(q: Query, data: seq<Row>, joinData: seq<Row>)
    requires !q.hasAggregateWithoutGroupBy && q.groupByFields.Some? && AllSupported(q.whereClauses)
    requires forall f :: f in q.groupByFields.value ==> f !in AggColumns(q.fields)
    ensures Execute(q, data, joinData).Ok?
    ensures |Execute(q, data, joinData).value| == |Keep(Working(q, data, joinData), q.whereClauses)|
    ensures forall i, f :: (0 <= i < |Execute(q, data, joinData).value| && f in AggColumns(q.fields) &&
              Upper(AggColumn(f).value.func) == "COUNT") ==>
              Execute(q, data, joinData).value[i][f] == Num(Fin(1.0))
  {
    AsWrittenRegroups(q, data, joinData);
    FilteredGroupsUnique(q, data, joinData);
    GroupUniqueRows(Keep(Working(q, data, joinData), q.whereClauses), q.groupByFields.value, q.fields);
  }

  /** As written, the result groups the filtered group rows. */
  lemma AsWrittenRegroups(q: Query, data: seq<Row>, joinData: seq<Row>)
    requires !q.hasAggregateWithoutGroupBy && q.groupByFields.Some? && AllSupported(q.whereClauses)
    ensures Working(q, data, joinData) == ApplyGroupBy(Joined(q, data, joinData), q.groupByFields.value, q.fields)
    ensures Execute(q, data, joinData) ==
              Ok(ApplyGroupBy(Keep(Working(q, data, joinData), q.whereClauses), q.groupByFields.value, q.fields))
  {
    FilterIsKeep(Working(q, data, joinData), q.whereClauses);
  }

  /** The filtered group rows have distinct keys. */
  lemma FilteredGroupsUnique(q: Query, data: seq<Row>, joinData: seq<Row>)
    requires q.groupByFields.Some?
    requires forall f :: f in q.groupByFields.value ==> f !in AggColumns(q.fields)
    ensures UniqueKeys(Keep(Working(q, data, joinData), q.whereClauses), q.groupByFields.value)
  {
    GroupRowsUniqueKeys(Joined(q, data, joinData), q.groupByFields.value, q.fields);
    KeepUniqueKeys(Working(q, data, joinData), q.whereClauses, q.groupByFields.value);
  }

  /** A row of the employees table: department `a` in column `d`. */
  function Employee(d: string, a: string): Row {
    map[d := Str(a)]
  }

  lemma DeptKey(d: string, a: string)
    ensures Key(Employee(d, a), [d]) == a
  {
    var parts := seq(1, i requires 0 <= i < 1 => JoinText(Get(Employee(d, a), [d][i])));
    assert parts == [a];
  }

  /** `SELECT d, c FROM employees GROUP BY d`. */
  function CountBy(d: string, c: string): Query {
    Query([d, c], "employees", [], "", None, None, Some([d]), false)
  }

  /** `d` is a plain column and `c` a COUNT aggregate. */
  predicate CountColumns(d: string, c: string) {
    AggColumn(d).None? && AggColumn(c).Some? && Upper(AggColumn(c).value.func) == "COUNT"
  }

  /** `dept` and `COUNT(*)` are such a pair. */
  lemma DeptCountStar()
    ensures CountColumns("dept", "COUNT(*)")
  {
    ExecNeedsParen("dept", true);
    assert AggColumn("dept").None?;
    var name := "COUNT";
    assert IsWord(name);
    ExecStar(name);
    assert name + "(*)" == "COUNT(*)";
    assert forall i :: 0 <= i < |name| ==> !('a' <= name[i] <= 'z');
    UpperFixed(name);
    assert Upper(name) == name;
    assert AggColumn("COUNT(*)") == Some(Call(name, "*"));
  }

  /** Two employees in department `a`, then one in department `b`. */
  function Employees(d: string, a: string, b: string): seq<Row> {
    [Employee(d, a), Employee(d, a), Employee(d, b)]
  }

  /** Department names that are not array indices keep their first-seen order. */
  predicate Departments(a: string, b: string) {
    a != b && !PropertyOrder.IsArrayIndex(a) && !PropertyOrder.IsArrayIndex(b)
  }

  lemma EmployeeKeys(d: string, a: string, b: string)
    ensures forall i :: 0 <= i < 2 ==> Key(Employees(d, a, b)[i], [d]) == a
    ensures Key(Employees(d, a, b)[2], [d]) == b
  {
    DeptKey(d, a);
    DeptKey(d, b);
  }

  lemma EmployeeGroups(d: string, a: string, b: string)
    requires a != b
    ensures KeysOf(Employees(d, a, b), [d]) == {a, b}
    ensures Members(Employees(d, a, b), [d], a) == {0, 1}
    ensures a in KeysOf(Employees(d, a, b), [d]) && FirstIndex(Employees(d, a, b), [d], a) == 0
  {
    var rows := Employees(d, a, b);
    EmployeeKeys(d, a, b);
    assert Key(rows[0], [d]) == a && Key(rows[1], [d]) == a && Key(rows[2], [d]) == b;
    forall k ensures k in KeysOf(rows, [d]) <==> k in {a, b} {
      if k in KeysOf(rows, [d]) {
        var i :| 0 <= i < 3 && Key(rows[i], [d]) == k;
      }
    }
    forall i: nat ensures i in Members(rows, [d], a) <==> i in {0, 1} {
    }
  }

  lemma EmployeeOrder(d: string, a: string, b: string)
    requires Departments(a, b)
    ensures OutputKeys(Employees(d, a, b), [d]) == [a, b]
  {
    EmployeeKeys(d, a, b);
    OutputKeysFirstSeen(Employees(d, a, b), [d]);
    EmployeeFirstSeen(d, a, b);
  }

  lemma EmployeeFirstSeen(d: string, a: string, b: string)
    requires a != b
    ensures FirstSeen(Employees(d, a, b), [d]) == [a, b]
  {
    var gb := [d];
    DeptKey(d, a);
    DeptKey(d, b);
    var r1 := [Employee(d, a)];
    var r2 := r1 + [Employee(d, a)];
    var r3 := r2 + [Employee(d, b)];
    assert r1[..0] == [];
    assert FirstSeen(r1, gb) == [a];
    assert r2[..1] == r1;
    assert FirstSeen(r2, gb) == [a];
    assert r3[..2] == r2;
    assert FirstSeen(r3, gb) == [a, b];
    assert r3 == Employees(d, a, b);
  }

  /**
   * `SELECT dept, COUNT(*) FROM employees GROUP BY dept` over employees in
   * departments a, a and b (say eng, eng, hr), as written: both result rows
   * report a count of 1.
   */
  lemma CountByDeptAsWritten(d: string, c: string, a: string, b: string)
    requires CountColumns(d, c) && a != b
    ensures Execute(CountBy(d, c), Employees(d, a, b), []).Ok?
    ensures |Execute(CountBy(d, c), Employees(d, a, b), []).value| == 2
    ensures forall i :: 0 <= i < 2 ==> c in Execute(CountBy(d, c), Employees(d, a, b), []).value[i]
    ensures forall i :: 0 <= i < 2 ==> Execute(CountBy(d, c), Employees(d, a, b), []).value[i][c] == Num(Fin(1.0))
  {
    var q := CountBy(d, c);
    var rows := Employees(d, a, b);
    assert Joined(q, rows, []) == rows;
    var w := Working(q, rows, []);
    KeepAll(w);
    AsWrittenRegroups(q, rows, []);
    RegroupEmployees(d, c, a, b);
  }

  /** Grouping the employees' group rows again. */
  lemma RegroupEmployees(d: string, c: string, a: string, b: string)
    requires CountColumns(d, c) && a != b
    ensures |ApplyGroupBy(ApplyGroupBy(Employees(d, a, b), [d], [d, c]), [d], [d, c])| == 2
    ensures forall i :: 0 <= i < 2 ==> c in ApplyGroupBy(ApplyGroupBy(Employees(d, a, b), [d], [d, c]), [d], [d, c])[i]
    ensures forall i :: 0 <= i < 2 ==> ApplyGroupBy(ApplyGroupBy(Employees(d, a, b), [d], [d, c]), [d], [d, c])[i][c] == Num(Fin(1.0))
  {
    EmployeeGroups(d, a, b);
    assert |{a, b}| == 2;
    RegroupCountsOne(Employees(d, a, b), d, c);
  }

  /** Grouping the group rows of `GROUP BY d` again gives one row per key, each with a count of 1. */
  lemma RegroupCountsOne(rows: seq<Row>, d: string, c: string)
    requires CountColumns(d, c)
    ensures |ApplyGroupBy(ApplyGroupBy(rows, [d], [d, c]), [d], [d, c])| == |KeysOf(rows, [d])|
    ensures forall i :: 0 <= i < |KeysOf(rows, [d])| ==>
              c in ApplyGroupBy(ApplyGroupBy(rows, [d], [d, c]), [d], [d, c])[i] &&
              ApplyGroupBy(ApplyGroupBy(rows, [d], [d, c]), [d], [d, c])[i][c] == Num(Fin(1.0))
  {
    var fields := [d, c];
    assert d !in AggColumns(fields) && c in AggColumns(fields);
    var g1 := ApplyGroupBy(rows, [d], fields);
    GroupRowsUniqueKeys(rows, [d], fields);
    GroupUniqueRows(g1, [d], fields);
    var g2 := ApplyGroupBy(g1, [d], fields);
    forall i | 0 <= i < |g2| ensures c in g2[i] {
      assert g2[i].Keys == (set f | f in [d]) + AggColumns(fields);
    }
  }

  /** The same query grouped once: department a's row reports a count of 2. */
  lemma CountByDeptCorrected(d: string, c: string, a: string, b: string)
    requires CountColumns(d, c) && Departments(a, b)
    ensures ExecuteCorrected(CountBy(d, c), Employees(d, a, b), []).Ok?
    ensures |ExecuteCorrected(CountBy(d, c), Employees(d, a, b), []).value| == 2
    ensures c in ExecuteCorrected(CountBy(d, c), Employees(d, a, b), []).value[0]
    ensures ExecuteCorrected(CountBy(d, c), Employees(d, a, b), []).value[0][c] == Num(Fin(2.0))
    ensures d in ExecuteCorrected(CountBy(d, c), Employees(d, a, b), []).value[0]
    ensures ExecuteCorrected(CountBy(d, c), Employees(d, a, b), []).value[0][d] == Str(a)
  {
    var q := CountBy(d, c);
    var rows := Employees(d, a, b);
    KeepAll(rows);
    assert Joined(q, rows, []) == rows;
    assert ExecuteCorrected(q, rows, []) == Ok(ApplyGroupBy(rows, [d], q.fields));
    GroupEmployees(d, c, a, b);
  }

  /** Grouping the employees once. */
  lemma GroupEmployees(d: string, c: string, a: string, b: string)
    requires CountColumns(d, c) && Departments(a, b)
    ensures |ApplyGroupBy(Employees(d, a, b), [d], [d, c])| == 2
    ensures c in ApplyGroupBy(Employees(d, a, b), [d], [d, c])[0] && d in ApplyGroupBy(Employees(d, a, b), [d], [d, c])[0]
    ensures ApplyGroupBy(Employees(d, a, b), [d], [d, c])[0][c] == Num(Fin(2.0))
    ensures ApplyGroupBy(Employees(d, a, b), [d], [d, c])[0][d] == Str(a)
  {
    var rows := Employees(d, a, b);
    EmployeeGroups(d, a, b);
    EmployeeOrder(d, a, b);
    PairSize(Members(rows, [d], a));
    FirstGroupRow(rows, d, c, a);
    assert Get(rows[0], d) == Str(a);
  }

  lemma PairSize(s: set<nat>)
    requires s == {0, 1}
    ensures |s| == 2
  {
  }

  /** The first group row of a `GROUP BY d` with a COUNT column `c`, for a first key seen twice. */
  lemma FirstGroupRow(rows: seq<Row>, d: string, c: string, a: string)
    requires CountColumns(d, c)
    requires |OutputKeys(rows, [d])| > 0 && OutputKeys(rows, [d])[0] == a
    requires a in KeysOf(rows, [d]) && |Members(rows, [d], a)| == 2 && FirstIndex(rows, [d], a) == 0
    ensures |ApplyGroupBy(rows, [d], [d, c])| == |OutputKeys(rows, [d])|
    ensures c in ApplyGroupBy(rows, [d], [d, c])[0] && d in ApplyGroupBy(rows, [d], [d, c])[0]
    ensures ApplyGroupBy(rows, [d], [d, c])[0][c] == Num(Fin(2.0))
    ensures ApplyGroupBy(rows, [d], [d, c])[0][d] == Get(rows[0], d)
  {
    var fields := [d, c];
    assert d !in AggColumns(fields) && c in AggColumns(fields);
    GroupRowAt(rows, [d], fields, 0);
    var out := ApplyGroupBy(rows, [d], fields);
    assert out[0].Keys == (set f | f in [d]) + AggColumns(fields);
    assert out[0][c] == Num(Fin(|Members(rows, [d], a)| as real));
  }

  // ---------------------------------------------------------------------------
  // A group-by column named `count`

  /** JavaScript `v + 1`: a string operand concatenates. */
  function PlusOne(v: Value): (r: Value)
    ensures v.Str? ==> r == Str(v.s + "1")
    ensures v.Num? ==> r == Num(Add(v.n, Fin(1.0)))
  {
    match v
    case Str(s) => Str(s + "1")
    case Num(n) => Num(Add(n, Fin(1.0)))
    case Null => Num(Fin(1.0))
    case Undef => Num(NaN)
  }

  /**
   * The `count` property of a group after `n` rows when `count` is also a
   * group-by field, as written: the first row's value overwrites the initial 0
   * and each row then adds 1 to it.
   */
  function CountAsWritten(first: Value, n: nat): Value {
    if n == 0 then first else PlusOne(CountAsWritten(first, n - 1))
  }

  /** CSV values are strings, so the count stays a string and is never a row count. */
  lemma {:induction false} CountAsWrittenString(s: string, n: nat)
    ensures CountAsWritten(Str(s), n).Str?
    ensures |CountAsWritten(Str(s), n).s| == |s| + n
  {
    if n > 0 {
      CountAsWrittenString(s, n - 1);
    }
  }

  /** Even a numeric first value only gives the row count when it happens to be 0. */
  lemma {:induction false} CountAsWrittenNumber(c: real, n: nat)
    ensures CountAsWritten(Num(Fin(c)), n) == Num(Fin(c + n as real))
  {
    if n > 0 {
      CountAsWrittenNumber(c, n - 1);
    }
  }

  /** One row `{count: "5"}` grouped by `count`: COUNT(*) comes out as "51". */
  lemma CountCollision()
    ensures CountAsWritten(Str("5"), 1) == Str("51")
  {
  }

  // ---------------------------------------------------------------------------
  // Grouped MIN and MAX forget a running zero

  /**
   * `Math.min(mins[x] || value, value)` treats a running minimum of 0 as
   * unset: the values 0 then 5 leave 5, although `Math.min` of them is 0.
   * MAX does the same with 0 then -5.
   */
  lemma ZeroResets()
    ensures Seeded(MinOp, [Fin(0.0), Fin(5.0)]) == Some(Fin(5.0))
    ensures MinOf([Fin(0.0), Fin(5.0)]) == Fin(0.0)
    ensures Seeded(MaxOp, [Fin(0.0), Fin(-5.0)]) == Some(Fin(-5.0))
    ensures MaxOf([Fin(0.0), Fin(-5.0)]) == Fin(0.0)
  {
    assert [Fin(0.0), Fin(5.0)][..1] == [Fin(0.0)];
    assert [Fin(0.0), Fin(-5.0)][..1] == [Fin(0.0)];
  }

  /** A NaN running sum counts as unset too: the values "x" then 5 sum to 5. */
  lemma NaNResets()
    ensures Seeded(SumOp, [NaN, Fin(5.0)]) == Some(Fin(5.0))
    ensures SumOf([NaN, Fin(5.0)]).NaN?
  {
    assert [NaN, Fin(5.0)][..1] == [NaN];
    assert HasNaN([NaN, Fin(5.0)]) by { assert [NaN, Fin(5.0)][0].NaN?; }
  }

  /** The update as evidently intended: only a value never set counts as unset. */
  function FoldStep(kind: Kind, prev: Option<Number>, v: Number): Number {
    match kind
    case SumOp => Add(if prev.Some? then prev.value else Fin(0.0), v)
    case MinOp => Min2(if prev.Some? then prev.value else v, v)
    case MaxOp => Max2(if prev.Some? then prev.value else v, v)
  }

  /** The intended running value after each of `vs` in turn. */
  function Folded(kind: Kind, vs: seq<Number>): Option<Number> {
    if |vs| == 0 then None
    else Some(FoldStep(kind, Folded(kind, vs[..|vs| - 1]), vs[|vs| - 1]))
  }

  /** The intended running values are the reduce sum, `Math.min` and `Math.max` of the group's values. */
  lemma {:induction false} FoldedIsMath(vs: seq<Number>)
    requires |vs| > 0
    ensures Folded(SumOp, vs) == Some(SumOf(vs))
    ensures Folded(MinOp, vs) == Some(MinOf(vs))
    ensures Folded(MaxOp, vs) == Some(MaxOf(vs))
    decreases |vs|
  {
    var n := |vs| - 1;
    var init := vs[..n];
    if n > 0 {
      FoldedIsMath(init);
    } else {
      assert init == [];
    }
  }
}
