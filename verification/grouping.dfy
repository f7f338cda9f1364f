/**
 * `applyGroupBy`: one pass over the rows builds a table of per-group
 * accumulators keyed by the `-`-joined group-by values; the table is then
 * listed in `Object.values` order and each accumulator becomes one row.
 */
module Grouping {
  import opened Wrappers
  import opened JsNumber
  import opened Rows
  import opened AggExpr
  import PropertyOrder

  // ---------------------------------------------------------------------------
  // Group keys

  /** `parts.join('-')`. */
  function JoinDash(parts: seq<string>): string {
    if |parts| == 0 then ""
    else if |parts| == 1 then parts[0]
    else JoinDash(parts[..|parts| - 1]) + "-" + parts[|parts| - 1]
  }

  /** `groupByFields.map(field => row[field]).join('-')`. */
  function Key(row: Row, gb: seq<string>): string {
    JoinDash(seq(|gb|, i requires 0 <= i < |gb| => JoinText(Get(row, gb[i]))))
  }

  /** The positions of the rows whose key is `k`. */
  function Members(rows: seq<Row>, gb: seq<string>, k: string): set<nat> {
    set i: nat | i < |rows| && Key(rows[i], gb) == k
  }

  /** The keys that occur in `rows`. */
  function KeysOf(rows: seq<Row>, gb: seq<string>): set<string> {
    set i | 0 <= i < |rows| :: Key(rows[i], gb)
  }

  /** The position of the first row whose key is `k`. */
  function FirstIndex(rows: seq<Row>, gb: seq<string>, k: string): (r: nat)
    requires k in KeysOf(rows, gb)
    ensures r < |rows| && Key(rows[r], gb) == k
    ensures forall j :: 0 <= j < r ==> Key(rows[j], gb) != k
  {
    if Key(rows[0], gb) == k then 0
    else
      assert k in KeysOf(rows[1..], gb) by {
        var i :| 0 <= i < |rows| && Key(rows[i], gb) == k;
        assert rows[1..][i - 1] == rows[i];
      }
      var r := 1 + FirstIndex(rows[1..], gb, k);
      assert forall j :: 1 <= j < r ==> rows[j] == rows[1..][j - 1];
      r
  }

  /** The distinct keys in order of first appearance. */
  function FirstSeen(rows: seq<Row>, gb: seq<string>): seq<string> {
    if |rows| == 0 then []
    else
      var before := FirstSeen(rows[..|rows| - 1], gb);
      var k := Key(rows[|rows| - 1], gb);
      if k in before then before else before + [k]
  }

  predicate Distinct(s: seq<string>) {
    forall i, j :: 0 <= i < j < |s| ==> s[i] != s[j]
  }

  // ---------------------------------------------------------------------------
  // Accumulators

  /**
   * The per-group state. `first` holds the group-by values of the group's first
   * row; the count and the per-column running SUM/MIN/MAX are kept apart from it.
   */
  datatype Acc = Acc(first: Row, count: nat, sums: map<string, Number>, mins: map<string, Number>, maxes: map<string, Number>)

  function Init(row: Row, gb: seq<string>): Acc {
    Acc(Select(row, gb), 0, map[], map[], map[])
  }

  /** The running aggregates a group keeps per column. */
  datatype Kind = SumOp | MinOp | MaxOp

  /** The `switch (aggFunc.toUpperCase())` cases of the accumulation pass. */
  function KindOf(name: string): (r: Option<Kind>)
    ensures r == Some(SumOp) <==> name == "SUM"
    ensures r == Some(MinOp) <==> name == "MIN"
    ensures r == Some(MaxOp) <==> name == "MAX"
  {
    if name == "SUM" then Some(SumOp)
    else if name == "MIN" then Some(MinOp)
    else if name == "MAX" then Some(MaxOp)
    else None
  }

  /** The running values of one kind: `sums`, `mins` or `maxes`. */
  function Slot(a: Acc, kind: Kind): map<string, Number> {
    match kind
    case SumOp => a.sums
    case MinOp => a.mins
    case MaxOp => a.maxes
  }

  function Put(a: Acc, kind: Kind, x: string, v: Number): (r: Acc)
    ensures Slot(r, kind) == Slot(a, kind)[x := v]
    ensures forall other :: other != kind ==> Slot(r, other) == Slot(a, other)
    ensures r.count == a.count && r.first == a.first
  {
    match kind
    case SumOp => a.(sums := a.sums[x := v])
    case MinOp => a.(mins := a.mins[x := v])
    case MaxOp => a.(maxes := a.maxes[x := v])
  }

  function Find(m: map<string, Number>, x: string): Option<Number> {
    if x in m then Some(m[x]) else None
  }

  /**
   * One update of a running value `prev` (None while unset) with `v`:
   * `(prev || 0) + v`, `Math.min(prev || v, v)` or `Math.max(prev || v, v)`.
   * A running value of zero or NaN counts as unset.
   */
  function SeedStep(kind: Kind, prev: Option<Number>, v: Number): Number {
    var set_ := prev.Some? && Truthy(prev.value);
    match kind
    case SumOp => Add(if set_ then prev.value else Fin(0.0), v)
    case MinOp => Min2(if set_ then prev.value else v, v)
    case MaxOp => Max2(if set_ then prev.value else v, v)
  }

  /** One aggregate expression applied to one row (the `aggregateFunctions.forEach` body). */
  function AggStep(a: Acc, row: Row, func: string): (r: Acc)
    ensures r.count == a.count && r.first == a.first
  {
    match Exec(func, false)
    case None => a
    case Some(c) =>
      match KindOf(Upper(c.func))
      case None => a
      case Some(kind) =>
        Put(a, kind, c.arg, SeedStep(kind, Find(Slot(a, kind), c.arg), ParseValue(Get(row, c.arg))))
  }

  /** All aggregate expressions, in field order, applied to one row. */
  function Absorb(a: Acc, row: Row, funcs: seq<string>): (r: Acc)
    ensures r.count == a.count && r.first == a.first
    decreases |funcs|
  {
    if |funcs| == 0 then a else Absorb(AggStep(a, row, funcs[0]), row, funcs[1..])
  }

  /** The group table: keys in creation order, and each key's accumulator. */
  datatype Groups = Groups(order: seq<string>, accs: map<string, Acc>)

  /** One iteration of `data.forEach`. */
  function Step(g: Groups, row: Row, gb: seq<string>, funcs: seq<string>): Groups {
    var k := Key(row, gb);
    var a := if k in g.accs then g.accs[k] else Init(row, gb);
    var a' := Absorb(a.(count := a.count + 1), row, funcs);
    Groups(if k in g.accs then g.order else g.order + [k], g.accs[k := a'])
  }

  function Accumulate(rows: seq<Row>, gb: seq<string>, funcs: seq<string>): Groups {
    if |rows| == 0 then Groups([], map[])
    else Step(Accumulate(rows[..|rows| - 1], gb, funcs), rows[|rows| - 1], gb, funcs)
  }

  /** The facts one grouping pass establishes about its table. */
  ghost predicate TableFacts(rows: seq<Row>, gb: seq<string>, g: Groups) {
    && g.order == FirstSeen(rows, gb)
    && (forall k :: k in g.accs <==> k in KeysOf(rows, gb))
    && (forall k :: k in g.accs ==> g.accs[k].count == |Members(rows, gb, k)|)
    && (forall k :: k in g.accs ==> g.accs[k].first == Select(rows[FirstIndex(rows, gb, k)], gb))
  }

  lemma {:induction false} AccumulateFacts(rows: seq<Row>, gb: seq<string>, funcs: seq<string>)
    ensures TableFacts(rows, gb, Accumulate(rows, gb, funcs))
    decreases |rows|
  {
    if |rows| > 0 {
      var n := |rows| - 1;
      var prefix := rows[..n];
      var x := rows[n];
      assert rows == prefix + [x];
      AccumulateFacts(prefix, gb, funcs);
      StepFacts(prefix, x, gb, funcs, Accumulate(prefix, gb, funcs));
    }
  }

  lemma StepFacts(prefix: seq<Row>, x: Row, gb: seq<string>, funcs: seq<string>, g: Groups)
    requires TableFacts(prefix, gb, g)
    ensures TableFacts(prefix + [x], gb, Step(g, x, gb, funcs))
  {
    var rows := prefix + [x];
    var g' := Step(g, x, gb, funcs);
    var k := Key(x, gb);
    assert rows[..|prefix|] == prefix;
    assert g'.order == FirstSeen(rows, gb) by {
      FirstSeenHas(prefix, gb, k);
    }
    KeysOfSnoc(prefix, x, gb);
    forall k' | k' in g'.accs
      ensures k' in KeysOf(rows, gb)
      ensures g'.accs[k'].count == |Members(rows, gb, k')|
      ensures g'.accs[k'].first == Select(rows[FirstIndex(rows, gb, k')], gb)
    {
      StepAccAt(prefix, x, gb, funcs, g, k');
    }
  }

  /** The accumulator of one key after a step. */
  lemma StepAccAt(prefix: seq<Row>, x: Row, gb: seq<string>, funcs: seq<string>, g: Groups, k': string)
    requires TableFacts(prefix, gb, g)
    requires k' in Step(g, x, gb, funcs).accs
    ensures k' in KeysOf(prefix + [x], gb)
    ensures Step(g, x, gb, funcs).accs[k'].count == |Members(prefix + [x], gb, k')|
    ensures Step(g, x, gb, funcs).accs[k'].first == Select((prefix + [x])[FirstIndex(prefix + [x], gb, k')], gb)
  {
    KeysOfSnoc(prefix, x, gb);
    StepCountAt(prefix, x, gb, funcs, g, k');
    StepFirstAt(prefix, x, gb, funcs, g, k');
  }

  lemma StepCountAt(prefix: seq<Row>, x: Row, gb: seq<string>, funcs: seq<string>, g: Groups, k': string)
    requires k' in g.accs <==> k' in KeysOf(prefix, gb)
    requires k' in g.accs ==> g.accs[k'].count == |Members(prefix, gb, k')|
    requires k' in Step(g, x, gb, funcs).accs
    ensures Step(g, x, gb, funcs).accs[k'].count == |Members(prefix + [x], gb, k')|
  {
    MembersSnoc(prefix, x, gb, k');
    if k' !in g.accs {
      NoMembers(prefix, gb, k');
    }
  }

  lemma NoMembers(rows: seq<Row>, gb: seq<string>, k: string)
    requires k !in KeysOf(rows, gb)
    ensures Members(rows, gb, k) == {}
  {
    forall i: nat | i < |rows| ensures Key(rows[i], gb) != k {
      assert Key(rows[i], gb) in KeysOf(rows, gb);
    }
  }

  lemma StepFirstAt(prefix: seq<Row>, x: Row, gb: seq<string>, funcs: seq<string>, g: Groups, k': string)
    requires k' in g.accs <==> k' in KeysOf(prefix, gb)
    requires k' in g.accs ==> g.accs[k'].first == Select(prefix[FirstIndex(prefix, gb, k')], gb)
    requires k' in Step(g, x, gb, funcs).accs
    ensures k' in KeysOf(prefix + [x], gb)
    ensures Step(g, x, gb, funcs).accs[k'].first == Select((prefix + [x])[FirstIndex(prefix + [x], gb, k')], gb)
  {
    KeysOfSnoc(prefix, x, gb);
    FirstIndexSnoc(prefix, x, gb, k');
    if k' in g.accs {
      var p := FirstIndex(prefix, gb, k');
      assert (prefix + [x])[p] == prefix[p];
    } else {
      assert (prefix + [x])[|prefix|] == x;
    }
  }

  /** A key is listed by `FirstSeen` exactly when it occurs. */
  lemma {:induction false} FirstSeenHas(rows: seq<Row>, gb: seq<string>, k: string)
    ensures k in FirstSeen(rows, gb) <==> k in KeysOf(rows, gb)
    decreases |rows|
  {
    if |rows| > 0 {
      var n := |rows| - 1;
      assert rows == rows[..n] + [rows[n]];
      FirstSeenHas(rows[..n], gb, k);
      KeysOfSnoc(rows[..n], rows[n], gb);
    }
  }

  lemma KeysOfSnoc(prefix: seq<Row>, x: Row, gb: seq<string>)
    ensures KeysOf(prefix + [x], gb) == KeysOf(prefix, gb) + {Key(x, gb)}
  {
    var rows := prefix + [x];
    assert forall i :: 0 <= i < |prefix| ==> rows[i] == prefix[i];
    assert rows[|prefix|] == x;
  }

  lemma MembersSnoc(prefix: seq<Row>, x: Row, gb: seq<string>, k: string)
    ensures |Members(prefix + [x], gb, k)| == |Members(prefix, gb, k)| + (if Key(x, gb) == k then 1 else 0)
  {
    var rows := prefix + [x];
    var before := Members(prefix, gb, k);
    var after := Members(rows, gb, k);
    var extra: set<nat> := if Key(x, gb) == k then {|prefix|} else {};
    forall i: nat ensures i in after <==> i in before + extra {
      if i < |prefix| {
        assert rows[i] == prefix[i];
      }
    }
    assert after == before + extra;
    assert |prefix| !in before;
  }

  lemma FirstIndexSnoc(prefix: seq<Row>, x: Row, gb: seq<string>, k: string)
    requires k in KeysOf(prefix + [x], gb)
    ensures k in KeysOf(prefix, gb) ==> FirstIndex(prefix + [x], gb, k) == FirstIndex(prefix, gb, k)
    ensures k !in KeysOf(prefix, gb) ==> FirstIndex(prefix + [x], gb, k) == |prefix| && k == Key(x, gb)
  {
    var rows := prefix + [x];
    assert forall i :: 0 <= i < |prefix| ==> rows[i] == prefix[i];
    assert rows[|prefix|] == x;
    var r := FirstIndex(rows, gb, k);
    if k in KeysOf(prefix, gb) {
      var p := FirstIndex(prefix, gb, k);
      assert Key(rows[p], gb) == k;
      assert forall j :: 0 <= j < p ==> Key(rows[j], gb) != k;
    } else {
      assert forall j :: 0 <= j < |prefix| ==> Key(rows[j], gb) != k;
    }
  }

  // ---------------------------------------------------------------------------
  // Key order

  /** `FirstSeen` lists each key once. */
  lemma {:induction false} FirstSeenDistinct(rows: seq<Row>, gb: seq<string>)
    ensures Distinct(FirstSeen(rows, gb))
    decreases |rows|
  {
    if |rows| > 0 {
      FirstSeenDistinct(rows[..|rows| - 1], gb);
    }
  }

  /** `FirstSeen` lists the keys in the order of their first rows. */
  lemma {:induction false} FirstSeenOrder(rows: seq<Row>, gb: seq<string>)
    ensures forall k :: k in FirstSeen(rows, gb) ==> k in KeysOf(rows, gb)
    ensures forall i, j :: 0 <= i < j < |FirstSeen(rows, gb)| ==>
              FirstIndex(rows, gb, FirstSeen(rows, gb)[i]) < FirstIndex(rows, gb, FirstSeen(rows, gb)[j])
    decreases |rows|
  {
    if |rows| > 0 {
      var n := |rows| - 1;
      var prefix := rows[..n];
      var x := rows[n];
      assert rows == prefix + [x];
      FirstSeenOrder(prefix, gb);
      var before := FirstSeen(prefix, gb);
      var after := FirstSeen(rows, gb);
      forall k | k in after ensures k in KeysOf(rows, gb) {
        FirstSeenHas(rows, gb, k);
      }
      KeysOfSnoc(prefix, x, gb);
      forall i | 0 <= i < |before|
        ensures FirstIndex(rows, gb, before[i]) == FirstIndex(prefix, gb, before[i]) < n
      {
        FirstIndexSnoc(prefix, x, gb, before[i]);
      }
      if Key(x, gb) !in before {
        FirstSeenHas(prefix, gb, Key(x, gb));
        FirstIndexSnoc(prefix, x, gb, Key(x, gb));
        assert after == before + [Key(x, gb)];
        assert FirstIndex(rows, gb, after[|before|]) == n;
      }
    }
  }

  /** The order in which the group rows come out: `Object.values` of the group table. */
  function OutputKeys(rows: seq<Row>, gb: seq<string>): seq<string> {
    PropertyOrder.OwnKeys(FirstSeen(rows, gb))
  }

  /** Reordering a list of distinct keys keeps them distinct. */
  lemma DistinctPermutation(a: seq<string>, b: seq<string>)
    requires Distinct(a) && multiset(a) == multiset(b)
    ensures Distinct(b)
  {
    forall k ensures multiset(a)[k] <= 1 {
      DistinctCount(a, k);
    }
    forall i, j | 0 <= i < j < |b| ensures b[i] != b[j] {
      RepeatCount(b, i, j);
    }
  }

  lemma RepeatCount(b: seq<string>, i: nat, j: nat)
    requires i < j < |b|
    ensures b[i] == b[j] ==> multiset(b)[b[i]] >= 2
  {
    assert b == b[..i] + [b[i]] + b[i + 1..j] + [b[j]] + b[j + 1..];
  }

  lemma {:induction false} DistinctCount(a: seq<string>, k: string)
    requires Distinct(a)
    ensures multiset(a)[k] <= 1
    decreases |a|
  {
    if |a| > 0 {
      var n := |a| - 1;
      assert a == a[..n] + [a[n]];
      DistinctCount(a[..n], k);
      assert a[n] !in a[..n];
    }
  }

  lemma {:induction false} DistinctCard(a: seq<string>)
    requires Distinct(a)
    ensures |set k | k in a| == |a|
    decreases |a|
  {
    if |a| > 0 {
      var n := |a| - 1;
      DistinctCard(a[..n]);
      assert (set k | k in a) == (set k | k in a[..n]) + {a[n]};
      assert a[n] !in a[..n];
    }
  }

  /** The output keys are the occurring keys, each exactly once. */
  lemma OutputKeysFacts(rows: seq<Row>, gb: seq<string>)
    ensures Distinct(OutputKeys(rows, gb))
    ensures forall k :: k in OutputKeys(rows, gb) <==> k in KeysOf(rows, gb)
    ensures |OutputKeys(rows, gb)| == |KeysOf(rows, gb)|
  {
    var order := FirstSeen(rows, gb);
    FirstSeenDistinct(rows, gb);
    DistinctPermutation(order, OutputKeys(rows, gb));
    PropertyOrder.OwnKeysMembers(order);
    forall k ensures k in order <==> k in KeysOf(rows, gb) {
      FirstSeenHas(rows, gb, k);
    }
    DistinctCard(order);
    assert (set k | k in order) == KeysOf(rows, gb);
  }

  /** When no key looks like an array index, groups come out in order of their first rows. */
  lemma OutputKeysFirstSeen(rows: seq<Row>, gb: seq<string>)
    requires forall i :: 0 <= i < |rows| ==> !PropertyOrder.IsArrayIndex(Key(rows[i], gb))
    ensures OutputKeys(rows, gb) == FirstSeen(rows, gb)
    ensures forall i :: 0 <= i < |OutputKeys(rows, gb)| ==> OutputKeys(rows, gb)[i] in KeysOf(rows, gb)
    ensures forall i, j :: 0 <= i < j < |OutputKeys(rows, gb)| ==>
              FirstIndex(rows, gb, OutputKeys(rows, gb)[i]) < FirstIndex(rows, gb, OutputKeys(rows, gb)[j])
  {
    var order := FirstSeen(rows, gb);
    forall i | 0 <= i < |order| ensures !PropertyOrder.IsArrayIndex(order[i]) {
      FirstSeenHas(rows, gb, order[i]);
    }
    PropertyOrder.OwnKeysNoIndices(order);
    FirstSeenOrder(rows, gb);
  }

  // ---------------------------------------------------------------------------
  // Group rows

  /** The aggregate a field asks for in a group row: `/(\w+)\((\*|\w+)\)/` and a known name. */
  function AggColumn(f: string): (r: Option<Call>)
    ensures r.Some? ==> Exec(f, true) == r
    ensures r.Some? ==> Upper(r.value.func) in {"SUM", "MIN", "MAX", "COUNT"}
    ensures Exec(f, true).Some? && Upper(Exec(f, true).value.func) in {"SUM", "MIN", "MAX", "COUNT"} ==>
              r == Exec(f, true)
  {
    match Exec(f, true)
    case None => None
    case Some(c) =>
      if Upper(c.func) in {"SUM", "MIN", "MAX", "COUNT"} then Some(c) else None
  }

  /** The fields that become aggregate columns of a group row. */
  function AggColumns(funcs: seq<string>): set<string> {
    set f | f in funcs && AggColumn(f).Some?
  }

  lemma AggColumnsCons(funcs: seq<string>)
    requires |funcs| > 0
    ensures AggColumns(funcs) == (if AggColumn(funcs[0]).Some? then {funcs[0]} else {}) + AggColumns(funcs[1..])
  {
    assert funcs == [funcs[0]] + funcs[1..];
  }

  /** A missing running value reads as `undefined`. */
  function Lookup(m: map<string, Number>, k: string): Value {
    if k in m then Num(m[k]) else Undef
  }

  /** The value of aggregate column `f` for a group. */
  function AggValue(a: Acc, f: string): Value
    requires AggColumn(f).Some?
  {
    var c := AggColumn(f).value;
    var name := Upper(c.func);
    if name == "SUM" then Lookup(a.sums, c.arg)
    else if name == "MIN" then Lookup(a.mins, c.arg)
    else if name == "MAX" then Lookup(a.maxes, c.arg)
    else Num(Fin(a.count as real))
  }

  /** `aggregateFunctions.forEach(...)` writing the aggregate columns into `r`. */
  function SetAggs(r: Row, a: Acc, funcs: seq<string>): (out: Row)
    ensures out.Keys == r.Keys + AggColumns(funcs)
    ensures forall f :: f in AggColumns(funcs) ==> out[f] == AggValue(a, f)
    ensures forall k :: k in r && k !in AggColumns(funcs) ==> out[k] == r[k]
    decreases |funcs|
  {
    if |funcs| == 0 then r
    else
      var f := funcs[0];
      var r' := if AggColumn(f).Some? then r[f := AggValue(a, f)] else r;
      AggColumnsCons(funcs);
      SetAggs(r', a, funcs[1..])
  }

  /** One group row: its group-by values, then its aggregate columns. */
  function Finalize(a: Acc, funcs: seq<string>): (r: Row)
    ensures r.Keys == a.first.Keys + AggColumns(funcs)
    ensures forall f :: f in AggColumns(funcs) ==> r[f] == AggValue(a, f)
    ensures forall f :: f in a.first && f !in AggColumns(funcs) ==> r[f] == a.first[f]
  {
    SetAggs(a.first, a, funcs)
  }

  /**
   * The group rows for `keys`, in that order: each has its group's recorded
   * values and one column per recognised aggregate expression.
   */
  function FinalizeAll(g: Groups, keys: seq<string>, funcs: seq<string>): (r: seq<Row>)
    requires forall i :: 0 <= i < |keys| ==> keys[i] in g.accs
    ensures |r| == |keys|
    ensures forall i :: 0 <= i < |keys| ==> r[i].Keys == g.accs[keys[i]].first.Keys + AggColumns(funcs)
    ensures forall i, f :: 0 <= i < |keys| && f in AggColumns(funcs) ==> r[i][f] == AggValue(g.accs[keys[i]], f)
    ensures forall i, f :: 0 <= i < |keys| && f in g.accs[keys[i]].first && f !in AggColumns(funcs) ==>
              r[i][f] == g.accs[keys[i]].first[f]
  {
    seq(|keys|, i requires 0 <= i < |keys| => Finalize(g.accs[keys[i]], funcs))
  }

  /** `applyGroupBy(data, groupByFields, aggregateFunctions)`. */
  function ApplyGroupBy(rows: seq<Row>, gb: seq<string>, funcs: seq<string>): (r: seq<Row>)
    ensures |r| == |KeysOf(rows, gb)|
    ensures forall i :: 0 <= i < |r| ==> r[i].Keys == (set f | f in gb) + AggColumns(funcs)
  {
    var g := Accumulate(rows, gb, funcs);
    var keys := OutputKeys(rows, gb);
    OutputKeysInTable(rows, gb, funcs);
    FinalizeAll(g, keys, funcs)
  }

  /** Each output key occurs and has an accumulator whose group values are the group-by fields. */
  lemma OutputKeysInTable(rows: seq<Row>, gb: seq<string>, funcs: seq<string>)
    ensures |OutputKeys(rows, gb)| == |KeysOf(rows, gb)|
    ensures forall i :: 0 <= i < |OutputKeys(rows, gb)| ==>
              OutputKeys(rows, gb)[i] in KeysOf(rows, gb) &&
              OutputKeys(rows, gb)[i] in Accumulate(rows, gb, funcs).accs &&
              Accumulate(rows, gb, funcs).accs[OutputKeys(rows, gb)[i]].first.Keys == set f | f in gb
  {
    var keys := OutputKeys(rows, gb);
    OutputKeysFacts(rows, gb);
    AccumulateFacts(rows, gb, funcs);
    forall i | 0 <= i < |keys|
      ensures keys[i] in KeysOf(rows, gb) && keys[i] in Accumulate(rows, gb, funcs).accs
    {
      assert keys[i] in keys;
    }
  }

  /** The accumulator of an occurring key counts its rows and keeps its first row's values. */
  lemma AccAt(rows: seq<Row>, gb: seq<string>, funcs: seq<string>, k: string)
    requires k in KeysOf(rows, gb)
    ensures k in Accumulate(rows, gb, funcs).accs
    ensures Accumulate(rows, gb, funcs).accs[k].count == |Members(rows, gb, k)|
    ensures Accumulate(rows, gb, funcs).accs[k].first == Select(rows[FirstIndex(rows, gb, k)], gb)
  {
    AccumulateFacts(rows, gb, funcs);
  }

  /**
   * Group row `i` describes the rows whose key is the `i`th output key:
   * COUNT columns hold how many there are, and the group-by columns hold the
   * values of the first of them.
   */
  lemma GroupRowAt(rows: seq<Row>, gb: seq<string>, funcs: seq<string>, i: nat)
    requires i < |OutputKeys(rows, gb)|
    ensures |ApplyGroupBy(rows, gb, funcs)| == |OutputKeys(rows, gb)|
    ensures OutputKeys(rows, gb)[i] in KeysOf(rows, gb)
    ensures forall f :: (f in AggColumns(funcs) && Upper(AggColumn(f).value.func) == "COUNT") ==>
              ApplyGroupBy(rows, gb, funcs)[i][f] == Num(Fin(|Members(rows, gb, OutputKeys(rows, gb)[i])| as real))
    ensures forall f :: (f in gb && f !in AggColumns(funcs)) ==>
              ApplyGroupBy(rows, gb, funcs)[i][f] == Get(rows[FirstIndex(rows, gb, OutputKeys(rows, gb)[i])], f)
  {
    GroupRowIs(rows, gb, funcs, i);
    forall f | f in AggColumns(funcs) && Upper(AggColumn(f).value.func) == "COUNT"
      ensures ApplyGroupBy(rows, gb, funcs)[i][f] == Num(Fin(|Members(rows, gb, OutputKeys(rows, gb)[i])| as real))
    {
      GroupCountAt(rows, gb, funcs, i, f);
    }
    forall f | f in gb && f !in AggColumns(funcs)
      ensures ApplyGroupBy(rows, gb, funcs)[i][f] == Get(rows[FirstIndex(rows, gb, OutputKeys(rows, gb)[i])], f)
    {
      GroupFieldAt(rows, gb, funcs, i, f);
    }
  }

  /** A COUNT column of group row `i` holds the size of its group. */
  lemma GroupCountAt(rows: seq<Row>, gb: seq<string>, funcs: seq<string>, i: nat, f: string)
    requires i < |OutputKeys(rows, gb)|
    requires f in AggColumns(funcs) && Upper(AggColumn(f).value.func) == "COUNT"
    ensures |ApplyGroupBy(rows, gb, funcs)| == |OutputKeys(rows, gb)|
    ensures OutputKeys(rows, gb)[i] in KeysOf(rows, gb)
    ensures ApplyGroupBy(rows, gb, funcs)[i][f] == Num(Fin(|Members(rows, gb, OutputKeys(rows, gb)[i])| as real))
  {
    var k := OutputKeys(rows, gb)[i];
    GroupRowIs(rows, gb, funcs, i);
    AccAt(rows, gb, funcs, k);
    var a := Accumulate(rows, gb, funcs).accs[k];
    assert ApplyGroupBy(rows, gb, funcs)[i][f] == AggValue(a, f);
  }

  /** A group-by column of group row `i` holds the value of its group's first row. */
  lemma GroupFieldAt(rows: seq<Row>, gb: seq<string>, funcs: seq<string>, i: nat, f: string)
    requires i < |OutputKeys(rows, gb)|
    requires f in gb && f !in AggColumns(funcs)
    ensures |ApplyGroupBy(rows, gb, funcs)| == |OutputKeys(rows, gb)|
    ensures OutputKeys(rows, gb)[i] in KeysOf(rows, gb)
    ensures ApplyGroupBy(rows, gb, funcs)[i][f] == Get(rows[FirstIndex(rows, gb, OutputKeys(rows, gb)[i])], f)
  {
    var k := OutputKeys(rows, gb)[i];
    GroupRowIs(rows, gb, funcs, i);
    AccAt(rows, gb, funcs, k);
    var a := Accumulate(rows, gb, funcs).accs[k];
    assert f in a.first;
    assert ApplyGroupBy(rows, gb, funcs)[i][f] == a.first[f];
  }

  /** Group row `i` is the finalized accumulator of the `i`th output key. */
  lemma GroupRowIs(rows: seq<Row>, gb: seq<string>, funcs: seq<string>, i: nat)
    requires i < |OutputKeys(rows, gb)|
    ensures OutputKeys(rows, gb)[i] in KeysOf(rows, gb)
    ensures OutputKeys(rows, gb)[i] in Accumulate(rows, gb, funcs).accs
    ensures |ApplyGroupBy(rows, gb, funcs)| == |OutputKeys(rows, gb)|
    ensures ApplyGroupBy(rows, gb, funcs)[i] == Finalize(Accumulate(rows, gb, funcs).accs[OutputKeys(rows, gb)[i]], funcs)
  {
    OutputKeysInTable(rows, gb, funcs);
  }

  /** Every row falls in exactly one group. */
  lemma EachRowOneGroup(rows: seq<Row>, gb: seq<string>, j: nat)
    requires j < |rows|
    ensures exists i :: 0 <= i < |OutputKeys(rows, gb)| && j in Members(rows, gb, OutputKeys(rows, gb)[i])
    ensures forall i1, i2 :: (0 <= i1 < |OutputKeys(rows, gb)| && 0 <= i2 < |OutputKeys(rows, gb)| &&
              j in Members(rows, gb, OutputKeys(rows, gb)[i1]) && j in Members(rows, gb, OutputKeys(rows, gb)[i2])) ==> i1 == i2
  {
    var keys := OutputKeys(rows, gb);
    OutputKeysFacts(rows, gb);
    assert Key(rows[j], gb) in KeysOf(rows, gb);
    var i :| 0 <= i < |keys| && keys[i] == Key(rows[j], gb);
    assert j in Members(rows, gb, keys[i]);
  }

  /**
   * Two rows are described by the same group row of `ApplyGroupBy` (the same
   * output key's members) exactly when their keys are equal.
   */
  lemma SameGroupIff(rows: seq<Row>, gb: seq<string>, j1: nat, j2: nat)
    requires j1 < |rows| && j2 < |rows|
    ensures (exists i :: 0 <= i < |OutputKeys(rows, gb)| &&
               j1 in Members(rows, gb, OutputKeys(rows, gb)[i]) && j2 in Members(rows, gb, OutputKeys(rows, gb)[i]))
            <==> Key(rows[j1], gb) == Key(rows[j2], gb)
  {
    var keys := OutputKeys(rows, gb);
    if Key(rows[j1], gb) == Key(rows[j2], gb) {
      OutputKeysFacts(rows, gb);
      assert Key(rows[j1], gb) in KeysOf(rows, gb);
      var i :| 0 <= i < |keys| && keys[i] == Key(rows[j1], gb);
      assert j1 in Members(rows, gb, keys[i]) && j2 in Members(rows, gb, keys[i]);
    }
  }

  /** The group sizes add up to the number of rows. */
  function SizeSum(rows: seq<Row>, gb: seq<string>, keys: seq<string>): nat {
    if |keys| == 0 then 0 else SizeSum(rows, gb, keys[..|keys| - 1]) + |Members(rows, gb, keys[|keys| - 1])|
  }

  lemma GroupSizesSum(rows: seq<Row>, gb: seq<string>)
    ensures SizeSum(rows, gb, OutputKeys(rows, gb)) == |rows|
  {
    var keys := OutputKeys(rows, gb);
    OutputKeysFacts(rows, gb);
    SizeSumUnion(rows, gb, keys);
    forall j: nat | j < |rows| ensures j in Covered(rows, gb, keys) {
      assert Key(rows[j], gb) in KeysOf(rows, gb);
      CoveredRow(rows, gb, keys, j);
    }
    assert Covered(rows, gb, keys) == Range(|rows|);
  }

  lemma CoveredRow(rows: seq<Row>, gb: seq<string>, keys: seq<string>, j: nat)
    requires j < |rows| && Key(rows[j], gb) in keys
    ensures j in Covered(rows, gb, keys)
  {
    var i :| 0 <= i < |keys| && keys[i] == Key(rows[j], gb);
    CoveredHas(rows, gb, keys, i, j);
  }

  /** The rows in any of the groups `keys`. */
  function Covered(rows: seq<Row>, gb: seq<string>, keys: seq<string>): (r: set<nat>)
    ensures forall j :: j in r ==> j < |rows|
  {
    if |keys| == 0 then {} else Covered(rows, gb, keys[..|keys| - 1]) + Members(rows, gb, keys[|keys| - 1])
  }

  lemma {:induction false} CoveredHas(rows: seq<Row>, gb: seq<string>, keys: seq<string>, i: nat, j: nat)
    requires i < |keys| && j in Members(rows, gb, keys[i])
    ensures j in Covered(rows, gb, keys)
    decreases |keys|
  {
    if i < |keys| - 1 {
      CoveredHas(rows, gb, keys[..|keys| - 1], i, j);
    }
  }

  lemma {:induction false} SizeSumUnion(rows: seq<Row>, gb: seq<string>, keys: seq<string>)
    requires Distinct(keys)
    ensures SizeSum(rows, gb, keys) == |Covered(rows, gb, keys)|
    decreases |keys|
  {
    if |keys| > 0 {
      var n := |keys| - 1;
      var init := keys[..n];
      SizeSumUnion(rows, gb, init);
      var c := Covered(rows, gb, init);
      var m := Members(rows, gb, keys[n]);
      forall j | j in c ensures j !in m {
        CoveredKey(rows, gb, init, j);
      }
      assert c * m == {};
    }
  }

  lemma {:induction false} CoveredKey(rows: seq<Row>, gb: seq<string>, keys: seq<string>, j: nat)
    requires j in Covered(rows, gb, keys)
    ensures Key(rows[j], gb) in keys
    decreases |keys|
  {
    var n := |keys| - 1;
    if j !in Members(rows, gb, keys[n]) {
      CoveredKey(rows, gb, keys[..n], j);
    }
  }

  /** The positions below `n`. */
  function Range(n: nat): (r: set<nat>)
    ensures forall j: nat :: j in r <==> j < n
    ensures |r| == n
  {
    if n == 0 then var e: set<nat> := {}; e else
      var r := Range(n - 1);
      assert n - 1 !in r;
      r + {n - 1}
  }

  // ---------------------------------------------------------------------------
  // Running SUM, MIN and MAX

  /** The running value after updating with each of `vs` in turn (None for no values). */
  function Seeded(kind: Kind, vs: seq<Number>): Option<Number> {
    if |vs| == 0 then None
    else Some(SeedStep(kind, Seeded(kind, vs[..|vs| - 1]), vs[|vs| - 1]))
  }

  /** The parsed values of column `x` in the rows of group `k`, in row order. */
  function GroupColumn(rows: seq<Row>, gb: seq<string>, k: string, x: string): seq<Number> {
    if |rows| == 0 then []
    else
      var last := rows[|rows| - 1];
      GroupColumn(rows[..|rows| - 1], gb, k, x) + (if Key(last, gb) == k then [ParseValue(Get(last, x))] else [])
  }

  /** Whether `func` updates the running value of `kind` for column `x`. */
  predicate Hits(func: string, kind: Kind, x: string) {
    var m := Exec(func, false);
    m.Some? && KindOf(Upper(m.value.func)) == Some(kind) && m.value.arg == x
  }

  /** How many of `funcs` update the running value of `kind` for column `x`. */
  function HitCount(funcs: seq<string>, kind: Kind, x: string): nat {
    if |funcs| == 0 then 0 else (if Hits(funcs[0], kind, x) then 1 else 0) + HitCount(funcs[1..], kind, x)
  }

  lemma AggStepSlot(a: Acc, row: Row, func: string, kind: Kind, x: string)
    ensures !Hits(func, kind, x) ==> Find(Slot(AggStep(a, row, func), kind), x) == Find(Slot(a, kind), x)
    ensures Hits(func, kind, x) ==>
              Find(Slot(AggStep(a, row, func), kind), x) == Some(SeedStep(kind, Find(Slot(a, kind), x), ParseValue(Get(row, x))))
  {
  }

  /**
   * `n` updates of the running value `prev` with the same value `v`: a row
   * passes through one update per expression that names the running value.
   */
  function Repeat(kind: Kind, prev: Option<Number>, v: Number, n: nat): Option<Number>
    decreases n
  {
    if n == 0 then prev else Repeat(kind, Some(SeedStep(kind, prev, v)), v, n - 1)
  }

  /** The running value after each of `vs` in turn, each update made `n` times. */
  function SeededN(kind: Kind, vs: seq<Number>, n: nat): Option<Number> {
    if |vs| == 0 then None
    else Repeat(kind, SeededN(kind, vs[..|vs| - 1], n), vs[|vs| - 1], n)
  }

  /** With one update per value, the repeated fold is the plain seeded fold. */
  lemma {:induction false} SeededOnce(kind: Kind, vs: seq<Number>)
    ensures SeededN(kind, vs, 1) == Seeded(kind, vs)
    decreases |vs|
  {
    if |vs| > 0 {
      SeededOnce(kind, vs[..|vs| - 1]);
    }
  }

  /** A row updates each running value once per expression that names it. */
  lemma AbsorbSlot(a: Acc, row: Row, funcs: seq<string>, kind: Kind, x: string)
    ensures Find(Slot(Absorb(a, row, funcs), kind), x) ==
              Repeat(kind, Find(Slot(a, kind), x), ParseValue(Get(row, x)), HitCount(funcs, kind, x))
    ensures HitCount(funcs, kind, x) == 0 ==> Find(Slot(Absorb(a, row, funcs), kind), x) == Find(Slot(a, kind), x)
    ensures HitCount(funcs, kind, x) == 1 ==>
              Find(Slot(Absorb(a, row, funcs), kind), x) == Some(SeedStep(kind, Find(Slot(a, kind), x), ParseValue(Get(row, x))))
  {
    AbsorbRepeat(a, row, funcs, kind, x);
  }

  lemma {:induction false} AbsorbRepeat(a: Acc, row: Row, funcs: seq<string>, kind: Kind, x: string)
    ensures Find(Slot(Absorb(a, row, funcs), kind), x) ==
              Repeat(kind, Find(Slot(a, kind), x), ParseValue(Get(row, x)), HitCount(funcs, kind, x))
    decreases |funcs|
  {
    var p := Find(Slot(a, kind), x);
    var v := ParseValue(Get(row, x));
    if |funcs| > 0 {
      var a' := AggStep(a, row, funcs[0]);
      AggStepSlot(a, row, funcs[0], kind, x);
      AbsorbRepeat(a', row, funcs[1..], kind, x);
      var n := HitCount(funcs[1..], kind, x);
      if Hits(funcs[0], kind, x) {
        assert Find(Slot(a', kind), x) == Some(SeedStep(kind, p, v));
        assert Repeat(kind, p, v, n + 1) == Repeat(kind, Some(SeedStep(kind, p, v)), v, n);
      }
    }
  }

  /**
   * A group's running SUM, MIN or MAX of column `x` is the fold over the
   * group's values of `x`, each value folded in once per expression naming it.
   */
  lemma {:induction false} RunningValue(rows: seq<Row>, gb: seq<string>, funcs: seq<string>, kind: Kind, x: string, k: string)
    ensures k !in Accumulate(rows, gb, funcs).accs ==> GroupColumn(rows, gb, k, x) == []
    ensures k in Accumulate(rows, gb, funcs).accs ==>
              Find(Slot(Accumulate(rows, gb, funcs).accs[k], kind), x) ==
              SeededN(kind, GroupColumn(rows, gb, k, x), HitCount(funcs, kind, x))
    decreases |rows|
  {
    if |rows| > 0 {
      var n := |rows| - 1;
      var prefix := rows[..n];
      var last := rows[n];
      RunningValue(prefix, gb, funcs, kind, x, k);
      var g := Accumulate(prefix, gb, funcs);
      assert Accumulate(rows, gb, funcs) == Step(g, last, gb, funcs);
      StepSlot(g, last, gb, funcs, kind, x, k);
      var col := GroupColumn(rows, gb, k, x);
      if Key(last, gb) == k {
        assert col == GroupColumn(prefix, gb, k, x) + [ParseValue(Get(last, x))];
        assert col[..|col| - 1] == GroupColumn(prefix, gb, k, x);
      } else {
        assert col == GroupColumn(prefix, gb, k, x) + [];
        assert col == GroupColumn(prefix, gb, k, x);
      }
    }
  }

  /** A row creates or updates only its own group, once per expression naming a running value. */
  lemma StepSlot(g: Groups, row: Row, gb: seq<string>, funcs: seq<string>, kind: Kind, x: string, k: string)
    ensures k in Step(g, row, gb, funcs).accs <==> k in g.accs || Key(row, gb) == k
    ensures Key(row, gb) != k && k in g.accs ==> Step(g, row, gb, funcs).accs[k] == g.accs[k]
    ensures Key(row, gb) == k ==>
              Find(Slot(Step(g, row, gb, funcs).accs[k], kind), x) ==
              Repeat(kind, if k in g.accs then Find(Slot(g.accs[k], kind), x) else None,
                     ParseValue(Get(row, x)), HitCount(funcs, kind, x))
  {
    if Key(row, gb) == k {
      StepSlotHit(g, row, gb, funcs, kind, x);
    }
  }

  lemma StepSlotHit(g: Groups, row: Row, gb: seq<string>, funcs: seq<string>, kind: Kind, x: string)
    ensures Key(row, gb) in Step(g, row, gb, funcs).accs
    ensures Find(Slot(Step(g, row, gb, funcs).accs[Key(row, gb)], kind), x) ==
              Repeat(kind, if Key(row, gb) in g.accs then Find(Slot(g.accs[Key(row, gb)], kind), x) else None,
                     ParseValue(Get(row, x)), HitCount(funcs, kind, x))
  {
    var k := Key(row, gb);
    var a := if k in g.accs then g.accs[k] else Init(row, gb);
    var a1 := a.(count := a.count + 1);
    assert Step(g, row, gb, funcs).accs[k] == Absorb(a1, row, funcs);
    assert Slot(a1, kind) == Slot(a, kind);
    AbsorbSlot(a1, row, funcs, kind, x);
  }

  /** What a group row shows for a running value: `undefined` when it was never set. */
  function Shown(v: Option<Number>): Value {
    if v.Some? then Num(v.value) else Undef
  }

  /**
   * A SUM, MIN or MAX column of group row `i` shows the fold over the group's
   * values, each folded in once per expression naming that running value; with
   * one such expression, this is the plain seeded fold.
   */
  lemma GroupAggregateAt(rows: seq<Row>, gb: seq<string>, funcs: seq<string>, i: nat, f: string, kind: Kind)
    requires i < |OutputKeys(rows, gb)|
    requires f in AggColumns(funcs) && KindOf(Upper(AggColumn(f).value.func)) == Some(kind)
    ensures |ApplyGroupBy(rows, gb, funcs)| == |OutputKeys(rows, gb)|
    ensures ApplyGroupBy(rows, gb, funcs)[i][f] ==
              Shown(SeededN(kind, GroupColumn(rows, gb, OutputKeys(rows, gb)[i], AggColumn(f).value.arg),
                            HitCount(funcs, kind, AggColumn(f).value.arg)))
    ensures HitCount(funcs, kind, AggColumn(f).value.arg) == 1 ==>
              ApplyGroupBy(rows, gb, funcs)[i][f] ==
              Shown(Seeded(kind, GroupColumn(rows, gb, OutputKeys(rows, gb)[i], AggColumn(f).value.arg)))
  {
    var k := OutputKeys(rows, gb)[i];
    var x := AggColumn(f).value.arg;
    GroupRowIs(rows, gb, funcs, i);
    RunningValue(rows, gb, funcs, kind, x, k);
    SeededOnce(kind, GroupColumn(rows, gb, k, x));
  }

  /**
   * Over finite values, a running SUM named by two expressions (`SUM(x)` and
   * `sum(x)`, say) is twice the exact sum of the group's values.
   */
  lemma {:induction false} SeededTwiceSumFinite(vs: seq<Number>)
    requires |vs| > 0 && AllFinite(vs)
    ensures SeededN(SumOp, vs, 2) == Some(Fin(2.0 * RealSum(Reals(vs))))
    decreases |vs|
  {
    var m := |vs| - 1;
    var init := vs[..m];
    var v := vs[m].r;
    assert vs[m] == Fin(v);
    assert Reals(vs)[..m] == Reals(init);
    assert RealSum(Reals(vs)) == RealSum(Reals(init)) + v;
    var before := SeededN(SumOp, init, 2);
    var base := 2.0 * RealSum(Reals(init));
    if m > 0 {
      SeededTwiceSumFinite(init);
      assert before == Some(Fin(base));
    } else {
      assert before == None;
      assert base == 0.0;
    }
    var once := SeedStep(SumOp, before, Fin(v));
    assert once == Fin(base + v);
    assert SeedStep(SumOp, Some(once), Fin(v)) == Fin(base + v + v);
    assert SeededN(SumOp, vs, 2) == Repeat(SumOp, before, Fin(v), 2);
    assert Repeat(SumOp, before, Fin(v), 2) == Repeat(SumOp, Some(once), Fin(v), 1);
    assert Repeat(SumOp, Some(once), Fin(v), 1) == Some(SeedStep(SumOp, Some(once), Fin(v)));
  }

  /** On finite values the running SUM is the exact sum: a zero running total adds like `0`. */
  lemma {:induction false} SeededSumFinite(vs: seq<Number>)
    requires |vs| > 0 && AllFinite(vs)
    ensures Seeded(SumOp, vs) == Some(Fin(RealSum(Reals(vs))))
    decreases |vs|
  {
    var n := |vs| - 1;
    var init := vs[..n];
    assert Reals(vs)[..n] == Reals(init);
    if n > 0 {
      SeededSumFinite(init);
    }
  }

  predicate NoZero(vs: seq<Number>) {
    forall i :: 0 <= i < |vs| ==> vs[i] != Fin(0.0)
  }

  /** Without zeros or NaN, the running MIN is `Math.min` of all the values. */
  lemma {:induction false} SeededMinNoZero(vs: seq<Number>)
    requires |vs| > 0 && !HasNaN(vs) && NoZero(vs)
    ensures Seeded(MinOp, vs) == Some(MinOf(vs))
    decreases |vs|
  {
    var n := |vs| - 1;
    var init := vs[..n];
    assert forall i :: 0 <= i < n ==> init[i] == vs[i];
    if n > 0 {
      SeededMinNoZero(init);
      var m := MinOf(init);
      var j :| 0 <= j < n && init[j] == m;
      assert Truthy(m);
    }
  }

  /** Without zeros or NaN, the running MAX is `Math.max` of all the values. */
  lemma {:induction false} SeededMaxNoZero(vs: seq<Number>)
    requires |vs| > 0 && !HasNaN(vs) && NoZero(vs)
    ensures Seeded(MaxOp, vs) == Some(MaxOf(vs))
    decreases |vs|
  {
    var n := |vs| - 1;
    var init := vs[..n];
    assert forall i :: 0 <= i < n ==> init[i] == vs[i];
    if n > 0 {
      SeededMaxNoZero(init);
      var m := MaxOf(init);
      var j :| 0 <= j < n && init[j] == m;
      assert Truthy(m);
    }
  }

  // ---------------------------------------------------------------------------
  // Grouping rows whose keys are already distinct

  /** Rows that agree on every group-by field have the same key. */
  lemma KeyCongruent(a: Row, b: Row, gb: seq<string>)
    requires forall f :: f in gb ==> Get(a, f) == Get(b, f)
    ensures Key(a, gb) == Key(b, gb)
  {
    var pa := seq(|gb|, i requires 0 <= i < |gb| => JoinText(Get(a, gb[i])));
    var pb := seq(|gb|, i requires 0 <= i < |gb| => JoinText(Get(b, gb[i])));
    assert pa == pb;
  }

  /** No two rows share a key. */
  predicate UniqueKeys(rows: seq<Row>, gb: seq<string>) {
    forall i, j :: 0 <= i < j < |rows| ==> Key(rows[i], gb) != Key(rows[j], gb)
  }

  /** With distinct keys every group has one row, and there are as many groups as rows. */
  lemma UniqueGroups(rows: seq<Row>, gb: seq<string>)
    requires UniqueKeys(rows, gb)
    ensures forall k :: k in KeysOf(rows, gb) ==> |Members(rows, gb, k)| == 1
    ensures |KeysOf(rows, gb)| == |rows|
  {
    forall k | k in KeysOf(rows, gb) ensures |Members(rows, gb, k)| == 1 {
      SingleMember(rows, gb, k);
    }
    UniqueKeysCount(rows, gb);
  }

  lemma SingleMember(rows: seq<Row>, gb: seq<string>, k: string)
    requires UniqueKeys(rows, gb) && k in KeysOf(rows, gb)
    ensures |Members(rows, gb, k)| == 1
  {
    var i :| 0 <= i < |rows| && Key(rows[i], gb) == k;
    assert Members(rows, gb, k) == {i};
  }

  lemma {:induction false} UniqueKeysCount(rows: seq<Row>, gb: seq<string>)
    requires UniqueKeys(rows, gb)
    ensures |KeysOf(rows, gb)| == |rows|
    decreases |rows|
  {
    if |rows| > 0 {
      var n := |rows| - 1;
      var prefix := rows[..n];
      assert rows == prefix + [rows[n]];
      assert UniqueKeys(prefix, gb);
      UniqueKeysCount(prefix, gb);
      KeysOfSnoc(prefix, rows[n], gb);
      assert forall i :: 0 <= i < n ==> Key(prefix[i], gb) != Key(rows[n], gb);
      assert Key(rows[n], gb) !in KeysOf(prefix, gb);
    }
  }

  /**
   * A group row carries its group's key when no group-by field is also an
   * aggregate column: the group rows have distinct keys.
   */
  lemma GroupRowsUniqueKeys(rows: seq<Row>, gb: seq<string>, funcs: seq<string>)
    requires forall f :: f in gb ==> f !in AggColumns(funcs)
    ensures |ApplyGroupBy(rows, gb, funcs)| == |OutputKeys(rows, gb)|
    ensures forall i :: 0 <= i < |OutputKeys(rows, gb)| ==> Key(ApplyGroupBy(rows, gb, funcs)[i], gb) == OutputKeys(rows, gb)[i]
    ensures UniqueKeys(ApplyGroupBy(rows, gb, funcs), gb)
  {
    var out := ApplyGroupBy(rows, gb, funcs);
    var keys := OutputKeys(rows, gb);
    OutputKeysFacts(rows, gb);
    forall i | 0 <= i < |keys| ensures Key(out[i], gb) == keys[i] {
      GroupRowAt(rows, gb, funcs, i);
      var first := rows[FirstIndex(rows, gb, keys[i])];
      forall f | f in gb ensures Get(out[i], f) == Get(first, f) {
        assert f in out[i];
      }
      KeyCongruent(out[i], first, gb);
    }
  }

  /** Grouping rows whose keys are distinct yields one group row per row, each with a count of 1. */
  lemma GroupUniqueRows(rows: seq<Row>, gb: seq<string>, funcs: seq<string>)
    requires UniqueKeys(rows, gb)
    ensures |ApplyGroupBy(rows, gb, funcs)| == |rows|
    ensures forall i, f :: (0 <= i < |ApplyGroupBy(rows, gb, funcs)| && f in AggColumns(funcs) &&
              Upper(AggColumn(f).value.func) == "COUNT") ==>
              ApplyGroupBy(rows, gb, funcs)[i][f] == Num(Fin(1.0))
  {
    UniqueGroups(rows, gb);
    OutputKeysFacts(rows, gb);
    forall i, f | (0 <= i < |OutputKeys(rows, gb)| && f in AggColumns(funcs) && Upper(AggColumn(f).value.func) == "COUNT")
      ensures ApplyGroupBy(rows, gb, funcs)[i][f] == Num(Fin(1.0))
    {
      GroupCountAt(rows, gb, funcs, i, f);
      SingleMember(rows, gb, OutputKeys(rows, gb)[i]);
    }
  }
}
