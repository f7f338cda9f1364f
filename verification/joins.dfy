/**
 * The three nested-loop equality joins. The main row's value of the column
 * named after the `.` of `joinCondition.left` is compared with `===` against the
 * join row's value of the column named after the `.` of `joinCondition.right`,
 * whatever the qualifiers say. Output rows are keyed by the fully qualified
 * `fields`: a field whose qualifier is the main `table` is read from the main
 * row, any other field from the join row.
 */
module Joins {
  import opened Wrappers
  import opened Rows

  datatype JoinCondition = JoinCondition(left: string, right: string)

  /** What every join variant is given besides the two tables. */
  datatype JoinParams = JoinParams(cond: JoinCondition, fields: seq<string>, table: string)

  /** Index of the first `.` of `s` at or after `i`. */
  function DotFrom(s: string, i: nat): (r: Option<nat>)
    requires i <= |s|
    ensures r.Some? ==> i <= r.value < |s| && s[r.value] == '.' && forall k :: i <= k < r.value ==> s[k] != '.'
    ensures r.None? ==> forall k :: i <= k < |s| ==> s[k] != '.'
    decreases |s| - i
  {
    if i == |s| then None else if s[i] == '.' then Some(i) else DotFrom(s, i + 1)
  }

  /** `s.split('.')[0]`. */
  function Qualifier(s: string): string {
    match DotFrom(s, 0)
    case Some(d) => s[..d]
    case None => s
  }

  /**
   * `s.split('.')[1]` used as a property name: the text between the first and
   * second `.`; without a `.` it is `undefined`, which names the property "undefined".
   */
  function Column(s: string): string {
    match DotFrom(s, 0)
    case None => "undefined"
    case Some(d) =>
      match DotFrom(s, d + 1)
      case Some(e) => s[d + 1..e]
      case None => s[d + 1..]
  }

  /** The join test, with the fixed main-row/join-row assignment of the two condition sides. */
  predicate Matches(main: Row, join: Row, c: JoinCondition) {
    StrictEq(Get(main, Column(c.left)), Get(join, Column(c.right)))
  }

  function FieldSet(fields: seq<string>): set<string> {
    set f | f in fields
  }

  /** The value a combined row holds under `f`. */
  function Pick(f: string, main: Row, join: Row, table: string): Value {
    if Qualifier(f) == table then Get(main, Column(f)) else Get(join, Column(f))
  }

  /** A main row combined with a matching join row. */
  function Merge(main: Row, join: Row, p: JoinParams): (r: Row)
    ensures r.Keys == FieldSet(p.fields)
    ensures forall f :: f in r ==> r[f] == Pick(f, main, join, p.table)
  {
    Assemble(p.fields, f => Pick(f, main, join, p.table))
  }

  /** A main row with no match: fields of other tables are `null`. */
  function PadJoinSide(main: Row, p: JoinParams): (r: Row)
    ensures r.Keys == FieldSet(p.fields)
    ensures forall f :: f in r ==> r[f] == if Qualifier(f) == p.table then Get(main, Column(f)) else Null
  {
    Assemble(p.fields, f => if Qualifier(f) == p.table then Get(main, Column(f)) else Null)
  }

  /** A join row with no match: fields of the main table are `null`. */
  function PadMainSide(join: Row, p: JoinParams): (r: Row)
    ensures r.Keys == FieldSet(p.fields)
    ensures forall f :: f in r ==> r[f] == if Qualifier(f) == p.table then Null else Get(join, Column(f))
  {
    Assemble(p.fields, f => if Qualifier(f) == p.table then Null else Get(join, Column(f)))
  }

  /** `joinData.filter(joinRow => matches(main, joinRow))`. */
  function JoinMatches(main: Row, joinData: seq<Row>, c: JoinCondition): (r: seq<Row>)
    ensures |r| <= |joinData|
    ensures forall x :: x in r <==> x in joinData && Matches(main, x, c)
  {
    if |joinData| == 0 then []
    else (if Matches(main, joinData[0], c) then [joinData[0]] else []) + JoinMatches(main, joinData[1..], c)
  }

  /** `data.filter(mainRow => matches(mainRow, join))`. */
  function MainMatches(data: seq<Row>, join: Row, c: JoinCondition): (r: seq<Row>)
    ensures |r| <= |data|
    ensures forall x :: x in r <==> x in data && Matches(x, join, c)
  {
    if |data| == 0 then []
    else (if Matches(data[0], join, c) then [data[0]] else []) + MainMatches(data[1..], join, c)
  }

  lemma {:induction false} JoinMatchesNone(main: Row, joinData: seq<Row>, c: JoinCondition)
    requires forall j :: 0 <= j < |joinData| ==> !Matches(main, joinData[j], c)
    ensures JoinMatches(main, joinData, c) == []
    decreases |joinData|
  {
    if |joinData| > 0 {
      assert forall j :: 0 <= j < |joinData| - 1 ==> joinData[1..][j] == joinData[j + 1];
      JoinMatchesNone(main, joinData[1..], c);
    }
  }

  lemma {:induction false} MainMatchesNone(data: seq<Row>, join: Row, c: JoinCondition)
    requires forall i :: 0 <= i < |data| ==> !Matches(data[i], join, c)
    ensures MainMatches(data, join, c) == []
    decreases |data|
  {
    if |data| > 0 {
      assert forall i :: 0 <= i < |data| - 1 ==> data[1..][i] == data[i + 1];
      MainMatchesNone(data[1..], join, c);
    }
  }

  predicate HasJoinMatch(main: Row, joinData: seq<Row>, c: JoinCondition) {
    exists j :: 0 <= j < |joinData| && Matches(main, joinData[j], c)
  }

  predicate HasMainMatch(data: seq<Row>, join: Row, c: JoinCondition) {
    exists i :: 0 <= i < |data| && Matches(data[i], join, c)
  }

  lemma JoinMatchesNonEmpty(main: Row, joinData: seq<Row>, c: JoinCondition)
    ensures HasJoinMatch(main, joinData, c) <==> |JoinMatches(main, joinData, c)| > 0
  {
    var ms := JoinMatches(main, joinData, c);
    if HasJoinMatch(main, joinData, c) {
      var j :| 0 <= j < |joinData| && Matches(main, joinData[j], c);
      assert joinData[j] in ms;
    }
    if |ms| > 0 {
      assert ms[0] in joinData;
    }
  }

  lemma MainMatchesNonEmpty(data: seq<Row>, join: Row, c: JoinCondition)
    ensures HasMainMatch(data, join, c) <==> |MainMatches(data, join, c)| > 0
  {
    var ms := MainMatches(data, join, c);
    if HasMainMatch(data, join, c) {
      var i :| 0 <= i < |data| && Matches(data[i], join, c);
      assert data[i] in ms;
    }
    if |ms| > 0 {
      assert ms[0] in data;
    }
  }

  function MergeEach(main: Row, joins: seq<Row>, p: JoinParams): (r: seq<Row>)
    ensures |r| == |joins|
  {
    seq(|joins|, i requires 0 <= i < |joins| => Merge(main, joins[i], p))
  }

  function MergeEachMain(mains: seq<Row>, join: Row, p: JoinParams): (r: seq<Row>)
    ensures |r| == |mains|
  {
    seq(|mains|, i requires 0 <= i < |mains| => Merge(mains[i], join, p))
  }

  /**
   * `xs.flatMap(f)`: the results of `f` on each element, concatenated in order.
   * A callback that returns a single object rather than an array contributes
   * that one object, so such a callback is modelled as returning `[object]`.
   */
  function FlatMap(xs: seq<Row>, f: Row -> seq<Row>): seq<Row> {
    if |xs| == 0 then [] else f(xs[0]) + FlatMap(xs[1..], f)
  }

  /** What one main row contributes to an inner join. */
  function InnerBlock(main: Row, joinData: seq<Row>, p: JoinParams): seq<Row> {
    MergeEach(main, JoinMatches(main, joinData, p.cond), p)
  }

  /** What one main row contributes to a left join. */
  function LeftBlock(main: Row, joinData: seq<Row>, p: JoinParams): seq<Row> {
    var matching := JoinMatches(main, joinData, p.cond);
    if |matching| > 0 then MergeEach(main, matching, p) else [PadJoinSide(main, p)]
  }

  /** What one join row contributes to a right join. */
  function RightBlock(data: seq<Row>, join: Row, p: JoinParams): seq<Row> {
    var matching := MainMatches(data, join, p.cond);
    if |matching| > 0 then MergeEachMain(matching, join, p) else [PadMainSide(join, p)]
  }

  function InnerStep(joinData: seq<Row>, p: JoinParams): Row -> seq<Row> {
    main => InnerBlock(main, joinData, p)
  }

  function LeftStep(joinData: seq<Row>, p: JoinParams): Row -> seq<Row> {
    main => LeftBlock(main, joinData, p)
  }

  function RightStep(data: seq<Row>, p: JoinParams): Row -> seq<Row> {
    join => RightBlock(data, join, p)
  }

  /** `performInnerJoin`. */
  function InnerJoin(data: seq<Row>, joinData: seq<Row>, p: JoinParams): seq<Row> {
    FlatMap(data, InnerStep(joinData, p))
  }

  /** `performLeftJoin`. */
  function LeftJoin(data: seq<Row>, joinData: seq<Row>, p: JoinParams): seq<Row> {
    FlatMap(data, LeftStep(joinData, p))
  }

  /** `performRightJoin`: driven by the join rows, with the same match test. */
  function RightJoin(data: seq<Row>, joinData: seq<Row>, p: JoinParams): seq<Row> {
    FlatMap(joinData, RightStep(data, p))
  }

  // ---------------------------------------------------------------------------
  // flatMap

  lemma {:induction false} FlatMapAppend(a: seq<Row>, b: seq<Row>, f: Row -> seq<Row>)
    ensures FlatMap(a + b, f) == FlatMap(a, f) + FlatMap(b, f)
    decreases |a|
  {
    if |a| == 0 {
      assert a + b == b;
    } else {
      assert (a + b)[0] == a[0];
      assert (a + b)[1..] == a[1..] + b;
      FlatMapAppend(a[1..], b, f);
    }
  }

  lemma FlatMapSingle(x: Row, f: Row -> seq<Row>)
    ensures FlatMap([x], f) == f(x)
  {
    assert [x][1..] == [];
    assert f(x) + [] == f(x);
  }

  /** A row is in the result exactly when some element's part holds it. */
  lemma {:induction false} FlatMapMembers(xs: seq<Row>, f: Row -> seq<Row>, y: Row)
    ensures y in FlatMap(xs, f) <==> exists i :: 0 <= i < |xs| && y in f(xs[i])
    decreases |xs|
  {
    if |xs| > 0 {
      FlatMapMembers(xs[1..], f, y);
      if exists i :: 0 <= i < |xs| && y in f(xs[i]) {
        var i :| 0 <= i < |xs| && y in f(xs[i]);
        if i > 0 { assert xs[1..][i - 1] == xs[i]; }
      }
      if exists i :: 0 <= i < |xs| - 1 && y in f(xs[1..][i]) {
        var i :| 0 <= i < |xs| - 1 && y in f(xs[1..][i]);
        assert xs[1..][i] == xs[i + 1];
      }
    }
  }

  /** When every part is non-empty there are at least as many results as elements. */
  lemma {:induction false} FlatMapAtLeast(xs: seq<Row>, f: Row -> seq<Row>)
    requires forall i :: 0 <= i < |xs| ==> |f(xs[i])| > 0
    ensures |FlatMap(xs, f)| >= |xs|
    decreases |xs|
  {
    if |xs| > 0 {
      assert forall i :: 0 <= i < |xs| - 1 ==> xs[1..][i] == xs[i + 1];
      FlatMapAtLeast(xs[1..], f);
    }
  }

  /** Callbacks that agree on every element give the same result. */
  lemma {:induction false} FlatMapSame(xs: seq<Row>, f: Row -> seq<Row>, g: Row -> seq<Row>)
    requires forall i :: 0 <= i < |xs| ==> f(xs[i]) == g(xs[i])
    ensures FlatMap(xs, f) == FlatMap(xs, g)
    decreases |xs|
  {
    if |xs| > 0 {
      assert forall i :: 0 <= i < |xs| - 1 ==> xs[1..][i] == xs[i + 1];
      FlatMapSame(xs[1..], f, g);
    }
  }

  // ---------------------------------------------------------------------------
  // Inner join: one output row per matching (main, join) pair, main-major order.

  /** Main rows contribute in order: the join of a concatenation is the concatenation of the joins. */
  lemma InnerJoinAppendMain(d1: seq<Row>, d2: seq<Row>, joinData: seq<Row>, p: JoinParams)
    ensures InnerJoin(d1 + d2, joinData, p) == InnerJoin(d1, joinData, p) + InnerJoin(d2, joinData, p)
  {
    FlatMapAppend(d1, d2, InnerStep(joinData, p));
  }

  /** One main row contributes its combinations with its matching join rows. */
  lemma InnerJoinSingle(main: Row, joinData: seq<Row>, p: JoinParams)
    ensures InnerJoin([main], joinData, p) == MergeEach(main, JoinMatches(main, joinData, p.cond), p)
  {
    FlatMapSingle(main, InnerStep(joinData, p));
  }

  lemma {:induction false} JoinMatchesAppend(main: Row, j1: seq<Row>, j2: seq<Row>, c: JoinCondition)
    ensures JoinMatches(main, j1 + j2, c) == JoinMatches(main, j1, c) + JoinMatches(main, j2, c)
    decreases |j1|
  {
    var y := JoinMatches(main, j2, c);
    if |j1| == 0 {
      assert j1 + j2 == j2;
      assert JoinMatches(main, j1, c) == [];
      assert [] + y == y;
    } else {
      var head := if Matches(main, j1[0], c) then [j1[0]] else [];
      var x := JoinMatches(main, j1[1..], c);
      assert (j1 + j2)[0] == j1[0];
      assert (j1 + j2)[1..] == j1[1..] + j2;
      JoinMatchesAppend(main, j1[1..], j2, c);
      assert JoinMatches(main, j1 + j2, c) == head + (x + y);
      AppendAssoc(head, x, y);
    }
  }

  lemma MergeEachAppend(main: Row, a: seq<Row>, b: seq<Row>, p: JoinParams)
    ensures MergeEach(main, a + b, p) == MergeEach(main, a, p) + MergeEach(main, b, p)
  {
    var l := MergeEach(main, a + b, p);
    var la := MergeEach(main, a, p);
    var lb := MergeEach(main, b, p);
    forall i | 0 <= i < |a| ensures l[i] == la[i] {
      assert (a + b)[i] == a[i];
    }
    forall i | 0 <= i < |b| ensures l[|a| + i] == lb[i] {
      assert (a + b)[|a| + i] == b[i];
    }
    assert l == la + lb;
  }

  /** Within one main row, join rows contribute in their own order. */
  lemma InnerJoinAppendJoin(main: Row, j1: seq<Row>, j2: seq<Row>, p: JoinParams)
    ensures InnerJoin([main], j1 + j2, p) == InnerJoin([main], j1, p) + InnerJoin([main], j2, p)
  {
    JoinMatchesAppend(main, j1, j2, p.cond);
    MergeEachAppend(main, JoinMatches(main, j1, p.cond), JoinMatches(main, j2, p.cond), p);
    InnerJoinSingle(main, j1 + j2, p);
    InnerJoinSingle(main, j1, p);
    InnerJoinSingle(main, j2, p);
  }

  /** A single pair yields its combined row exactly when it matches. */
  lemma InnerJoinPair(main: Row, join: Row, p: JoinParams)
    ensures InnerJoin([main], [join], p) == if Matches(main, join, p.cond) then [Merge(main, join, p)] else []
  {
    InnerJoinSingle(main, [join], p);
    assert [join][1..] == [];
  }

  /** A main row without any match contributes nothing. */
  lemma InnerJoinUnmatched(main: Row, joinData: seq<Row>, p: JoinParams)
    requires forall j :: 0 <= j < |joinData| ==> !Matches(main, joinData[j], p.cond)
    ensures InnerJoin([main], joinData, p) == []
  {
    JoinMatchesNone(main, joinData, p.cond);
    InnerJoinSingle(main, joinData, p);
  }

  /** The rows one main row contributes are its combinations with its matching join rows. */
  lemma BlockMembers(main: Row, joinData: seq<Row>, p: JoinParams, x: Row)
    ensures x in InnerBlock(main, joinData, p) <==>
            exists j :: 0 <= j < |joinData| && Matches(main, joinData[j], p.cond) && x == Merge(main, joinData[j], p)
  {
    if x in InnerBlock(main, joinData, p) {
      BlockMemberPair(main, joinData, p, x);
    }
    if exists j :: 0 <= j < |joinData| && Matches(main, joinData[j], p.cond) && x == Merge(main, joinData[j], p) {
      var j :| 0 <= j < |joinData| && Matches(main, joinData[j], p.cond) && x == Merge(main, joinData[j], p);
      PairBlockMember(main, joinData, p, j);
    }
  }

  lemma BlockMemberPair(main: Row, joinData: seq<Row>, p: JoinParams, x: Row)
    requires x in InnerBlock(main, joinData, p)
    ensures exists j :: 0 <= j < |joinData| && Matches(main, joinData[j], p.cond) && x == Merge(main, joinData[j], p)
  {
    var ms := JoinMatches(main, joinData, p.cond);
    var block := MergeEach(main, ms, p);
    var k :| 0 <= k < |block| && block[k] == x;
    assert ms[k] in joinData;
    var j :| 0 <= j < |joinData| && joinData[j] == ms[k];
    assert Matches(main, joinData[j], p.cond) && x == Merge(main, joinData[j], p);
  }

  lemma PairBlockMember(main: Row, joinData: seq<Row>, p: JoinParams, j: nat)
    requires j < |joinData| && Matches(main, joinData[j], p.cond)
    ensures Merge(main, joinData[j], p) in InnerBlock(main, joinData, p)
  {
    var ms := JoinMatches(main, joinData, p.cond);
    assert joinData[j] in ms;
    var k :| 0 <= k < |ms| && ms[k] == joinData[j];
    assert MergeEach(main, ms, p)[k] == Merge(main, joinData[j], p);
  }

  /** A combination of the pair (i, j). */
  ghost predicate PairRow(data: seq<Row>, joinData: seq<Row>, p: JoinParams, x: Row, i: int, j: int) {
    0 <= i < |data| && 0 <= j < |joinData| && Matches(data[i], joinData[j], p.cond) && x == Merge(data[i], joinData[j], p)
  }

  /** The inner join holds a row iff it combines some matching pair. */
  lemma InnerJoinMembers(data: seq<Row>, joinData: seq<Row>, p: JoinParams, x: Row)
    ensures x in InnerJoin(data, joinData, p) <==> exists i, j :: PairRow(data, joinData, p, x, i, j)
  {
    var f := InnerStep(joinData, p);
    FlatMapMembers(data, f, x);
    if x in InnerJoin(data, joinData, p) {
      var i :| 0 <= i < |data| && x in f(data[i]);
      BlockMembers(data[i], joinData, p, x);
      var j :| 0 <= j < |joinData| && Matches(data[i], joinData[j], p.cond) && x == Merge(data[i], joinData[j], p);
      assert PairRow(data, joinData, p, x, i, j);
    }
    if exists i, j :: PairRow(data, joinData, p, x, i, j) {
      var i, j :| PairRow(data, joinData, p, x, i, j);
      BlockMembers(data[i], joinData, p, x);
      assert x in f(data[i]);
    }
  }

  /** Every inner-join row has exactly the requested keys, main-table fields from the main row and the rest from the join row. */
  lemma InnerJoinShape(data: seq<Row>, joinData: seq<Row>, p: JoinParams, x: Row)
    requires x in InnerJoin(data, joinData, p)
    ensures x.Keys == FieldSet(p.fields)
    ensures exists i, j :: 0 <= i < |data| && 0 <= j < |joinData| && Matches(data[i], joinData[j], p.cond) &&
                           forall f :: f in x ==> x[f] == (if Qualifier(f) == p.table then Get(data[i], Column(f)) else Get(joinData[j], Column(f)))
  {
    InnerJoinMembers(data, joinData, p, x);
    var i, j :| PairRow(data, joinData, p, x, i, j);
  }

  // ---------------------------------------------------------------------------
  // Left join: the inner join, plus one padded row per unmatched main row.

  lemma LeftJoinAppendMain(d1: seq<Row>, d2: seq<Row>, joinData: seq<Row>, p: JoinParams)
    ensures LeftJoin(d1 + d2, joinData, p) == LeftJoin(d1, joinData, p) + LeftJoin(d2, joinData, p)
  {
    FlatMapAppend(d1, d2, LeftStep(joinData, p));
  }

  /** A main row with some match contributes what the inner join gives it; otherwise exactly one padded row. */
  lemma LeftJoinRow(main: Row, joinData: seq<Row>, p: JoinParams)
    ensures HasJoinMatch(main, joinData, p.cond) ==>
              LeftJoin([main], joinData, p) == InnerJoin([main], joinData, p) && |LeftJoin([main], joinData, p)| > 0
    ensures (forall j :: 0 <= j < |joinData| ==> !Matches(main, joinData[j], p.cond)) ==>
              LeftJoin([main], joinData, p) == [PadJoinSide(main, p)]
  {
    FlatMapSingle(main, LeftStep(joinData, p));
    InnerJoinSingle(main, joinData, p);
    JoinMatchesNonEmpty(main, joinData, p.cond);
  }

  /** Every main row contributes at least one row. */
  lemma LeftJoinTotal(data: seq<Row>, joinData: seq<Row>, p: JoinParams)
    ensures |LeftJoin(data, joinData, p)| >= |data|
  {
    FlatMapAtLeast(data, LeftStep(joinData, p));
  }

  /** Every left-join row is a combination of a matching pair or the padded row of an unmatched main row. */
  lemma LeftJoinMembers(data: seq<Row>, joinData: seq<Row>, p: JoinParams, x: Row)
    requires x in LeftJoin(data, joinData, p)
    ensures x.Keys == FieldSet(p.fields)
    ensures (exists i, j :: PairRow(data, joinData, p, x, i, j)) ||
            (exists i :: 0 <= i < |data| && !HasJoinMatch(data[i], joinData, p.cond) && x == PadJoinSide(data[i], p))
  {
    FlatMapMembers(data, LeftStep(joinData, p), x);
    var i :| 0 <= i < |data| && x in LeftBlock(data[i], joinData, p);
    var main := data[i];
    var ms := JoinMatches(main, joinData, p.cond);
    JoinMatchesNonEmpty(main, joinData, p.cond);
    if |ms| > 0 {
      BlockMembers(main, joinData, p, x);
      var j :| 0 <= j < |joinData| && Matches(main, joinData[j], p.cond) && x == Merge(main, joinData[j], p);
      assert PairRow(data, joinData, p, x, i, j);
    } else {
      assert x == PadJoinSide(main, p);
    }
  }

  /** When every main row has a match the left join is the inner join. */
  lemma LeftJoinAllMatched(data: seq<Row>, joinData: seq<Row>, p: JoinParams)
    requires forall i :: 0 <= i < |data| ==> HasJoinMatch(data[i], joinData, p.cond)
    ensures LeftJoin(data, joinData, p) == InnerJoin(data, joinData, p)
  {
    forall i | 0 <= i < |data|
      ensures LeftStep(joinData, p)(data[i]) == InnerStep(joinData, p)(data[i])
    {
      JoinMatchesNonEmpty(data[i], joinData, p.cond);
    }
    FlatMapSame(data, LeftStep(joinData, p), InnerStep(joinData, p));
  }

  // ---------------------------------------------------------------------------
  // Right join: driven by the join rows.

  lemma RightJoinAppendJoin(data: seq<Row>, j1: seq<Row>, j2: seq<Row>, p: JoinParams)
    ensures RightJoin(data, j1 + j2, p) == RightJoin(data, j1, p) + RightJoin(data, j2, p)
  {
    FlatMapAppend(j1, j2, RightStep(data, p));
  }

  lemma MergeEachMainCons(mains: seq<Row>, join: Row, p: JoinParams)
    requires |mains| > 0
    ensures MergeEachMain(mains, join, p) == [Merge(mains[0], join, p)] + MergeEachMain(mains[1..], join, p)
  {
    var l := MergeEachMain(mains, join, p);
    var r := [Merge(mains[0], join, p)] + MergeEachMain(mains[1..], join, p);
    forall i | 0 <= i < |l| ensures l[i] == r[i] {
      if i > 0 { assert mains[1..][i - 1] == mains[i]; }
    }
  }

  /** For one join row, the matching main rows in order are what the inner join pairs it with. */
  lemma {:induction false} InnerJoinOneJoinRow(data: seq<Row>, join: Row, p: JoinParams)
    ensures InnerJoin(data, [join], p) == MergeEachMain(MainMatches(data, join, p.cond), join, p)
    decreases |data|
  {
    if |data| > 0 {
      var m := data[0];
      InnerJoinOneJoinRow(data[1..], join, p);
      assert [m] + data[1..] == data;
      InnerJoinAppendMain([m], data[1..], [join], p);
      InnerJoinPair(m, join, p);
      var rest := MainMatches(data[1..], join, p.cond);
      if Matches(m, join, p.cond) {
        MergeEachMainCons([m] + rest, join, p);
        assert ([m] + rest)[1..] == rest;
      } else {
        assert MainMatches(data, join, p.cond) == rest;
      }
    }
  }

  /** A join row with some match contributes what the inner join pairs it with; otherwise one padded row. */
  lemma RightJoinRow(data: seq<Row>, join: Row, p: JoinParams)
    ensures HasMainMatch(data, join, p.cond) ==>
              RightJoin(data, [join], p) == InnerJoin(data, [join], p) && |RightJoin(data, [join], p)| > 0
    ensures (forall i :: 0 <= i < |data| ==> !Matches(data[i], join, p.cond)) ==>
              RightJoin(data, [join], p) == [PadMainSide(join, p)]
  {
    FlatMapSingle(join, RightStep(data, p));
    InnerJoinOneJoinRow(data, join, p);
    MainMatchesNonEmpty(data, join, p.cond);
  }

  /** Every right-join row is a combination of a matching pair or the padded row of an unmatched join row. */
  lemma RightJoinMembers(data: seq<Row>, joinData: seq<Row>, p: JoinParams, x: Row)
    requires x in RightJoin(data, joinData, p)
    ensures x.Keys == FieldSet(p.fields)
    ensures (exists i, j :: PairRow(data, joinData, p, x, i, j)) ||
            (exists j :: 0 <= j < |joinData| && !HasMainMatch(data, joinData[j], p.cond) && x == PadMainSide(joinData[j], p))
  {
    FlatMapMembers(joinData, RightStep(data, p), x);
    var j :| 0 <= j < |joinData| && x in RightBlock(data, joinData[j], p);
    var jr := joinData[j];
    var ms := MainMatches(data, jr, p.cond);
    MainMatchesNonEmpty(data, jr, p.cond);
    if |ms| > 0 {
      var k :| 0 <= k < |ms| && x == MergeEachMain(ms, jr, p)[k];
      assert ms[k] in data;
      var i :| 0 <= i < |data| && data[i] == ms[k];
      assert PairRow(data, joinData, p, x, i, j);
    } else {
      assert x == PadMainSide(jr, p);
    }
  }

  /** Every join row contributes at least one row. */
  lemma RightJoinTotal(data: seq<Row>, joinData: seq<Row>, p: JoinParams)
    ensures |RightJoin(data, joinData, p)| >= |joinData|
  {
    FlatMapAtLeast(joinData, RightStep(data, p));
  }

  /** The inner join's rows, counted by multiplicity, split over a concatenation of join rows. */
  lemma {:induction false} InnerJoinSplitJoinRows(data: seq<Row>, j1: seq<Row>, j2: seq<Row>, p: JoinParams)
    ensures multiset(InnerJoin(data, j1 + j2, p)) == multiset(InnerJoin(data, j1, p)) + multiset(InnerJoin(data, j2, p))
    decreases |data|
  {
    if |data| > 0 {
      var m := data[0];
      InnerJoinSplitJoinRows(data[1..], j1, j2, p);
      InnerJoinAppendJoin(m, j1, j2, p);
      assert [m] + data[1..] == data;
      InnerJoinAppendMain([m], data[1..], j1 + j2, p);
      InnerJoinAppendMain([m], data[1..], j1, p);
      InnerJoinAppendMain([m], data[1..], j2, p);
    }
  }

  lemma {:induction false} InnerJoinNoJoinRows(data: seq<Row>, p: JoinParams)
    ensures InnerJoin(data, [], p) == []
    decreases |data|
  {
    if |data| > 0 {
      InnerJoinNoJoinRows(data[1..], p);
      InnerJoinUnmatched(data[0], [], p);
      assert [data[0]] + data[1..] == data;
      InnerJoinAppendMain([data[0]], data[1..], [], p);
    }
  }

  /** The inner join of the main table with one join row. */
  function InnerWithJoinRow(data: seq<Row>, p: JoinParams): Row -> seq<Row> {
    join => InnerJoin(data, [join], p)
  }

  /**
   * When every join row has a match, the right join lists, join row by join
   * row, that row's inner-join rows; so it has the inner join's rows.
   */
  lemma {:induction false} RightJoinAllMatched(data: seq<Row>, joinData: seq<Row>, p: JoinParams)
    requires forall j :: 0 <= j < |joinData| ==> HasMainMatch(data, joinData[j], p.cond)
    ensures RightJoin(data, joinData, p) == FlatMap(joinData, InnerWithJoinRow(data, p))
    ensures multiset(RightJoin(data, joinData, p)) == multiset(InnerJoin(data, joinData, p))
    decreases |joinData|
  {
    RightJoinByJoinRow(data, joinData, p);
    RightJoinSameRows(data, joinData, p);
  }

  /** With every join row matched, each join row's block is its inner join with the main table. */
  lemma {:induction false} RightJoinByJoinRow(data: seq<Row>, joinData: seq<Row>, p: JoinParams)
    requires forall j :: 0 <= j < |joinData| ==> HasMainMatch(data, joinData[j], p.cond)
    ensures RightJoin(data, joinData, p) == FlatMap(joinData, InnerWithJoinRow(data, p))
    decreases |joinData|
  {
    if |joinData| > 0 {
      var jr := joinData[0];
      var rest := joinData[1..];
      assert forall j :: 0 <= j < |rest| ==> rest[j] == joinData[j + 1];
      RightJoinByJoinRow(data, rest, p);
      RightJoinRow(data, jr, p);
      FlatMapSingle(jr, RightStep(data, p));
      assert RightStep(data, p)(jr) == InnerWithJoinRow(data, p)(jr);
    }
  }

  lemma {:induction false} RightJoinSameRows(data: seq<Row>, joinData: seq<Row>, p: JoinParams)
    requires forall j :: 0 <= j < |joinData| ==> HasMainMatch(data, joinData[j], p.cond)
    ensures multiset(RightJoin(data, joinData, p)) == multiset(InnerJoin(data, joinData, p))
    decreases |joinData|
  {
    if |joinData| > 0 {
      var jr := joinData[0];
      var rest := joinData[1..];
      assert forall j :: 0 <= j < |rest| ==> rest[j] == joinData[j + 1];
      RightJoinSameRows(data, rest, p);
      RightJoinRow(data, jr, p);
      assert [jr] + rest == joinData;
      RightJoinAppendJoin(data, [jr], rest, p);
      InnerJoinSplitJoinRows(data, [jr], rest, p);
    } else {
      InnerJoinNoJoinRows(data, p);
    }
  }
}
