/**
 * `executeSELECTQuery` once its tables are loaded: join, group, filter, then
 * one of three result shapes (a summary row, group rows or projected rows).
 * The main and join tables are parameters; reading them is outside the model.
 */
module Engine {
  import opened Wrappers
  import opened Rows
  import opened AggExpr
  import opened Where
  import opened Joins
  import opened Grouping
  import opened Summary

  /** The parsed query, as `parseQuery` hands it over. */
  datatype Query = Query(
    fields: seq<string>,
    table: string,
    whereClauses: seq<Clause>,
    joinType: string,
    joinTable: Option<string>,
    joinCondition: Option<JoinCondition>,
    groupByFields: Option<seq<string>>,
    hasAggregateWithoutGroupBy: bool)

  /** `joinTable && joinCondition`: a missing or empty table name means no join. */
  predicate HasJoin(q: Query) {
    q.joinTable.Some? && q.joinTable.value != "" && q.joinCondition.Some?
  }

  /** The rows after the JOIN step; an unknown join type leaves the main table as it is. */
  function Joined(q: Query, data: seq<Row>, joinData: seq<Row>): (r: seq<Row>)
    ensures !HasJoin(q) ==> r == data
  {
    if HasJoin(q) then
      var p := JoinParams(q.joinCondition.value, q.fields, q.table);
      var kind := Upper(q.joinType);
      if kind == "INNER" then InnerJoin(data, joinData, p)
      else if kind == "LEFT" then LeftJoin(data, joinData, p)
      else if kind == "RIGHT" then RightJoin(data, joinData, p)
      else data
    else data
  }

  /** The rows the WHERE step sees: as written, grouped already when there is a GROUP BY. */
  function Working(q: Query, data: seq<Row>, joinData: seq<Row>): seq<Row> {
    var joined := Joined(q, data, joinData);
    if q.groupByFields.Some? then ApplyGroupBy(joined, q.groupByFields.value, q.fields) else joined
  }

  /** `groupResults.map(row => selectedRow)`: each row cut down to the selected fields, in order. */
  function Project(rows: seq<Row>, fields: seq<string>): (r: seq<Row>)
    ensures |r| == |rows|
    ensures forall i :: 0 <= i < |rows| ==> r[i].Keys == set f | f in fields
    ensures forall i, f :: 0 <= i < |rows| && f in r[i] ==> r[i][f] == Get(rows[i], f)
  {
    seq(|rows|, i requires 0 <= i < |rows| => Select(rows[i], fields))
  }

  /** The result shape chosen after filtering. */
  function Dispatch(q: Query, filtered: seq<Row>): seq<Row> {
    if q.hasAggregateWithoutGroupBy then [Summarize(filtered, q.fields)]
    else if q.groupByFields.Some? then ApplyGroupBy(filtered, q.groupByFields.value, q.fields)
    else Project(filtered, q.fields)
  }

  /** `executeSELECTQuery(query)` as written, on the loaded tables. */
  function Execute(q: Query, data: seq<Row>, joinData: seq<Row>): Result<seq<Row>, Error> {
    var filtered :- Filter(Working(q, data, joinData), q.whereClauses);
    Ok(Dispatch(q, filtered))
  }

  /** The pipeline as evidently intended: join, filter, then group once. */
  function ExecuteCorrected(q: Query, data: seq<Row>, joinData: seq<Row>): Result<seq<Row>, Error> {
    var filtered :- Filter(Joined(q, data, joinData), q.whereClauses);
    Ok(Dispatch(q, filtered))
  }

  // ---------------------------------------------------------------------------
  // Properties

  /** A query fails exactly when its WHERE step raises, and the error names an unsupported operator. */
  lemma ExecuteError(q: Query, data: seq<Row>, joinData: seq<Row>)
    ensures Execute(q, data, joinData).Err? <==> Filter(Working(q, data, joinData), q.whereClauses).Err?
    ensures Execute(q, data, joinData).Err? ==>
              exists k :: 0 <= k < |q.whereClauses| && !Supported(q.whereClauses[k].op) &&
                          Execute(q, data, joinData).error == UnsupportedOperator(q.whereClauses[k].op)
    ensures AllSupported(q.whereClauses) ==> Execute(q, data, joinData).Ok?
  {
    if Filter(Working(q, data, joinData), q.whereClauses).Err? {
      FilterErrorNamesOperator(Working(q, data, joinData), q.whereClauses);
    }
    if AllSupported(q.whereClauses) {
      FilterIsKeep(Working(q, data, joinData), q.whereClauses);
    }
  }

  /**
   * Without GROUP BY or aggregates, the result has one row per joined row that
   * satisfies the WHERE clauses, in order, each holding exactly the requested fields.
   */
  lemma ExecuteProjection(q: Query, data: seq<Row>, joinData: seq<Row>)
    requires !q.hasAggregateWithoutGroupBy && q.groupByFields.None? && AllSupported(q.whereClauses)
    ensures Execute(q, data, joinData) == Ok(Project(Keep(Joined(q, data, joinData), q.whereClauses), q.fields))
    ensures |Execute(q, data, joinData).value| <= |Joined(q, data, joinData)|
    ensures forall i :: 0 <= i < |Execute(q, data, joinData).value| ==>
              Execute(q, data, joinData).value[i].Keys == set f | f in q.fields
  {
    FilterIsKeep(Joined(q, data, joinData), q.whereClauses);
  }

  /** With an aggregate and no GROUP BY, the result is one row whose COUNT columns count the filtered rows. */
  lemma ExecuteSummary(q: Query, data: seq<Row>, joinData: seq<Row>)
    requires q.hasAggregateWithoutGroupBy && AllSupported(q.whereClauses)
    ensures Execute(q, data, joinData) == Ok([Summarize(Keep(Working(q, data, joinData), q.whereClauses), q.fields)])
    ensures Execute(q, data, joinData).value[0].Keys == SummaryColumns(q.fields)
    ensures forall f :: f in q.fields && SummaryColumn(f).Some? && Upper(SummaryColumn(f).value.func) == "COUNT" ==>
              Execute(q, data, joinData).value[0][f] == Num(JsNumber.Fin(|Keep(Working(q, data, joinData), q.whereClauses)| as real))
  {
    FilterIsKeep(Working(q, data, joinData), q.whereClauses);
  }

  /** A plain INNER JOIN query returns the inner join's rows that satisfy the WHERE clauses. */
  lemma ExecuteInnerJoin(q: Query, data: seq<Row>, joinData: seq<Row>)
    requires HasJoin(q) && Upper(q.joinType) == "INNER"
    requires !q.hasAggregateWithoutGroupBy && q.groupByFields.None? && AllSupported(q.whereClauses)
    ensures Execute(q, data, joinData) ==
              Ok(Keep(InnerJoin(data, joinData, JoinParams(q.joinCondition.value, q.fields, q.table)), q.whereClauses))
  {
    var p := JoinParams(q.joinCondition.value, q.fields, q.table);
    var kept := Keep(InnerJoin(data, joinData, p), q.whereClauses);
    ExecuteProjection(q, data, joinData);
    KeepMembers(InnerJoin(data, joinData, p), q.whereClauses);
    forall i | 0 <= i < |kept| ensures Select(kept[i], q.fields) == kept[i] {
      assert kept[i] in kept;
      InnerJoinShape(data, joinData, p, kept[i]);
      SelectSame(kept[i], q.fields);
    }
    assert Joined(q, data, joinData) == InnerJoin(data, joinData, p);
    assert Project(kept, q.fields) == kept;
  }

  /**
   * The corrected pipeline groups the filtered joined rows once: each group
   * row's COUNT columns hold the number of filtered rows with its key.
   */
  lemma CorrectedGroupCounts(q: Query, data: seq<Row>, joinData: seq<Row>, i: nat)
    requires !q.hasAggregateWithoutGroupBy && q.groupByFields.Some? && AllSupported(q.whereClauses)
    requires i < |OutputKeys(Keep(Joined(q, data, joinData), q.whereClauses), q.groupByFields.value)|
    ensures ExecuteCorrected(q, data, joinData).Ok?
    ensures |ExecuteCorrected(q, data, joinData).value| == |OutputKeys(Keep(Joined(q, data, joinData), q.whereClauses), q.groupByFields.value)|
    ensures forall f :: (f in AggColumns(q.fields) && Upper(AggColumn(f).value.func) == "COUNT") ==>
              ExecuteCorrected(q, data, joinData).value[i][f] ==
              Num(JsNumber.Fin(|Members(Keep(Joined(q, data, joinData), q.whereClauses), q.groupByFields.value,
                                        OutputKeys(Keep(Joined(q, data, joinData), q.whereClauses), q.groupByFields.value)[i])| as real))
  {
    var filtered := Keep(Joined(q, data, joinData), q.whereClauses);
    FilterIsKeep(Joined(q, data, joinData), q.whereClauses);
    GroupRowAt(filtered, q.groupByFields.value, q.fields, i);
  }
}
