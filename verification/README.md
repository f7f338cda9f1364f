# A verified model of the in-memory SQL engine

This project models the query engine in `src/index.js` of a small JavaScript SQL
engine for CSV files. The engine runs one parsed `SELECT` query over a main table
and an optional join table. Each table is a sequence of rows, and each row maps
column names to values.

The engine runs its steps in a fixed order:

1. It performs an INNER, LEFT or RIGHT join when the query names a join table
   and a join condition.
2. It groups the rows when the query has a GROUP BY. This happens before the
   WHERE step.
3. It keeps the rows that satisfy every WHERE clause. An unsupported operator
   raises an error.
4. It returns one of three result shapes:
   - one summary row, for aggregates without a GROUP BY;
   - one row per group, after grouping again;
   - or the projection of each row onto the selected fields.

Values are modelled with JavaScript's own rules:

- `===`, under which NaN differs from itself;
- the truthiness used by `x || d`, under which 0 and NaN are falsy;
- the abstract relational comparison: two strings compare lexicographically, and any other pair is converted to numbers;
- `parseFloat` and `Number(...)` on strings;
- `Math.min`, `Math.max`, `reduce` and division, including NaN and the infinities;
- the order in which `Object.values` lists an object's properties (section 10.1.11.1 of ECMA-262);
- the unanchored, leftmost `RegExp.prototype.exec` of the aggregate patterns `/(\w+)\((\w+)\)/` and `/(\w+)\((\*|\w+)\)/`.

Modules, leaves first:

| module | file | contents |
|---|---|---|
| `Wrappers` | `wrappers.dfy` | `Option` and `Result` |
| `JsNumber` | `js_number.dfy` | numbers with NaN and ±Infinity over exact reals: `+`, `<`, `Math.min`/`Math.max`, `reduce` sums, division by a count |
| `NumberText` | `number_text.dfy` | `parseFloat`, `Number(string)`, and number-to-string conversion for group keys |
| `Rows` | `rows.dfy` | values (string, number, `null`, `undefined`), rows, `===`, `<` |
| `AggExpr` | `agg_expr.dfy` | the two aggregate regular expressions and `toUpperCase` |
| `Where` | `where.dfy` | `evaluateCondition`, `every` and `filter` |
| `Joins` | `joins.dfy` | `performInnerJoin`, `performLeftJoin`, `performRightJoin` |
| `PropertyOrder` | `property_order.dfy` | the `Object.values` order of the group table |
| `Grouping` | `grouping.dfy` | `applyGroupBy` |
| `Summary` | `summary.dfy` | the single summary row of an aggregate query without GROUP BY |
| `Engine` | `engine.dfy` | `executeSELECTQuery` once the tables are loaded, as written and as corrected |
| `Findings` | `findings.dfy` | the defects listed under Findings, each beside its correction |

## Model

| member | source | states |
|---|---|---|
| Rows.StrictEqIsEquality | src/index.js:14 | The join's `===` holds exactly when the two values are equal and not NaN. |
| Rows.JsLess | src/index.js:269-272 | Two strings compare lexicographically. A comparison with `undefined` and a non-string is undefined, so every relational operator is false for it. |
| Rows.StrLessTransitive | src/index.js:269-272 | String `<` is transitive. |
| Rows.StrLessTotal | src/index.js:269-272 | Any two distinct strings are ordered one way or the other by `<`. |
| Rows.StrLessIrreflexive | src/index.js:269-272 | No string is less than itself, so `>=` and `<=` hold between a string and itself. |
| JsNumber.MinOf | src/index.js:219 | `Math.min(...)` is +Infinity for no arguments and NaN exactly when an argument is NaN. Otherwise it is one of the arguments and no argument is below it. |
| JsNumber.MaxOf | src/index.js:222 | The mirror image of `MinOf`: -Infinity for no arguments, NaN exactly when an argument is NaN, otherwise an argument that no other argument exceeds. |
| JsNumber.SumOf | src/index.js:213 | The `reduce` sum from 0 is NaN when any term is NaN. When every term is finite it is the exact sum. |
| JsNumber.DivCount | src/index.js:216 | A finite sum divided by a positive count is the exact quotient. Zero divided by zero, and NaN divided by anything, give NaN. |
| JsNumber.MinLeMax | src/index.js:219-222 | Over NaN-free values, MIN is not above MAX. |
| NumberText.NatToString | src/index.js:98 | The decimal text of a count is a canonical digit string whose value is the count. |
| NumberText.ParseFloat | src/index.js:112 | `parseFloat` gives NaN exactly when no decimal literal starts the text after leading white space. |
| NumberText.ParseFloatNat | src/index.js:112 | `parseFloat` reads a count's decimal text back as that count. |
| NumberText.StringToNumberNat | src/index.js:269-272 | `Number(...)` reads a count's decimal text back as that count. |
| NumberText.TrailingText | src/index.js:112 | On digits followed by other text, `parseFloat` returns the leading number, while `Number(...)` of the same text gives NaN. |
| AggExpr.MatchAtSound | src/index.js:109 | A regex match at position i is a word, then `(`, then a word argument (or `*` in the star pattern), then `)`, written at i. |
| AggExpr.ArgAtSound | src/index.js:136 | The captured argument is a word, or `*` in the star pattern, and is followed by `)`. |
| AggExpr.ArgAtIs | src/index.js:136 | Conversely, a word (or `*` in the star pattern) written at p and closed by `)` is the argument captured at p. |
| AggExpr.MatchAtIs | src/index.js:136 | Conversely, a well-formed `F(x)` written at i is matched there with exactly those captures. |
| AggExpr.ExecLeftmost | src/index.js:109 | `exec` returns the match at the leftmost position that has one. It returns null exactly when no position matches. |
| AggExpr.ExecRender | src/index.js:205 | `exec` on the text `F(x)` captures F and x. |
| AggExpr.ExecStar | src/index.js:109 | `F(*)` is captured by the star pattern of lines 136 and 205, and never by the plain pattern of line 109. |
| AggExpr.NoPlainMatch | src/index.js:109 | The plain pattern matches `F(*)` at no position at all. |
| AggExpr.ExecNeedsParen | src/index.js:205 | A field with no `(`, such as a plain column name, is never taken for an aggregate. |
| AggExpr.Upper | src/index.js:114 | `toUpperCase` leaves no lower-case ASCII letter. Each one becomes the capital at the same place in the alphabet, and every other character is kept. |
| AggExpr.UpperFixed | src/index.js:172 | A name is its own upper case exactly when it has no lower-case ASCII letter, so `INNER` dispatches as written. |
| AggExpr.UpperIdempotent | src/index.js:114 | Raising the case of a name twice gives the same result as raising it once. |
| Where.Evaluate | src/index.js:264-275 | The call raises exactly for an operator outside `= != > < >= <=`, with an error naming the operator. `=` and `!=` are strict (in)equality with the literal string. |
| Where.EvaluateCompare | src/index.js:269-272 | `>`, `<`, `>=` and `<=` compare a string cell with the literal lexicographically. They are false for a missing cell. |
| Where.EveryTrue | src/index.js:193 | `every` is true exactly when each clause evaluates to true. |
| Where.EveryRaises | src/index.js:193 | `every` raises exactly when it reaches an unsupported operator after clauses that all held. |
| Where.SatisfiesCons | src/index.js:193 | A row satisfies the first k clauses exactly when it satisfies the first clause and the next k-1. |
| Where.FilterIsKeep | src/index.js:192-194 | With supported operators, the WHERE step keeps, in order, exactly the rows that satisfy every clause. |
| Where.FilterRowsIsKeep | src/index.js:193 | With supported operators, `filter` never raises and returns the satisfying rows. |
| Where.EveryOk | src/index.js:193 | With supported operators, `every` never raises and reports whether all clauses hold. |
| Where.KeepMembers | src/index.js:193 | A row is kept exactly when it is a row of the input that satisfies every clause. |
| Where.KeepAll | src/index.js:192-194 | No clauses keep every row. |
| Where.KeepAppend | src/index.js:193 | Filtering distributes over concatenation of tables. |
| Where.KeepMoreClauses | src/index.js:193 | Filtering by one more clause is filtering the filtered rows by that clause. |
| Where.SatisfiesAppend | src/index.js:193 | Satisfying a longer clause list is satisfying both parts. |
| Where.FilterRowsError | src/index.js:193 | `filter` raises exactly when `every` raises for some row. |
| Where.FilterErrorNamesOperator | src/index.js:192-194 | An error from the WHERE step names an unsupported operator of the query. |
| Where.FilterRowsErrorOp | src/index.js:193 | An error from `filter` names an unsupported operator of the query. |
| Joins.Merge | src/index.js:17-21 | A combined row has exactly the requested fields. A field qualified by the main table comes from the main row, and any other field from the join row. |
| Joins.PadJoinSide | src/index.js:45-53 | An unmatched main row keeps its own fields, and every other field is `null`. |
| Joins.PadMainSide | src/index.js:79-87 | An unmatched join row keeps its fields, and every field of the main table is `null`. |
| Joins.JoinMatchesNonEmpty | src/index.js:29-35 | `matchingJoinRows.length > 0` exactly when some join row matches. |
| Joins.MainMatchesNonEmpty | src/index.js:62-68 | `matchingDataRows.length > 0` exactly when some main row matches. |
| Joins.InnerJoinMembers | src/index.js:9-23 | A row is in the inner join exactly when it is the merge of a main row and a join row whose condition columns are `===`. |
| Joins.InnerJoinShape | src/index.js:9-23 | Every inner-join row has exactly the requested fields, and takes each value from its matching pair. |
| Joins.InnerJoinPair | src/index.js:10-22 | One main row and one join row give their merge if they match and nothing otherwise. |
| Joins.InnerJoinUnmatched | src/index.js:10-15 | A main row without a matching join row contributes nothing. |
| Joins.InnerJoinAppendMain | src/index.js:9 | `flatMap` over the main rows distributes over concatenation. |
| Joins.InnerJoinSplitJoinRows | src/index.js:10-22 | Splitting the join table splits the inner join, as multisets. |
| Joins.LeftJoinRow | src/index.js:28-55 | A main row with matches yields exactly its inner-join rows. One without matches yields one row padded with `null`. |
| Joins.LeftJoinMembers | src/index.js:28-55 | Every left-join row is a matching merge or the padded form of an unmatched main row, with exactly the requested fields. |
| Joins.LeftJoinTotal | src/index.js:28-55 | The left join has at least one row per main row. |
| Joins.LeftJoinAllMatched | src/index.js:28-55 | When every main row has a match, the left join is the inner join. |
| Joins.RightJoinRow | src/index.js:61-89 | A join row with matches yields exactly its merges. One without matches yields one row with the main table's fields `null`. |
| Joins.RightJoinMembers | src/index.js:61-89 | Every right-join row is a matching merge or the padded form of an unmatched join row. |
| Joins.RightJoinTotal | src/index.js:61-89 | The right join has at least one row per join row. |
| Joins.RightJoinAllMatched | src/index.js:61-89 | When every join row has a match, the right join lists, join row by join row, that row's inner join with the main table; so it holds the inner join's rows, equal as multisets. |
| PropertyOrder.Sort | src/index.js:131 | The array-index keys are put in ascending numeric order, as a permutation. |
| PropertyOrder.OwnKeysMembers | src/index.js:131 | `Object.values` lists every group exactly once. |
| PropertyOrder.OwnKeysIndicesFirst | src/index.js:131 | Group keys that are array indices (such as `"7"`) come first, in ascending numeric order. |
| PropertyOrder.OwnKeysOthersInOrder | src/index.js:131 | The other group keys follow in the order the groups were created. |
| PropertyOrder.OwnKeysNoIndices | src/index.js:131 | Without array-index keys, the order is creation order. |
| Grouping.FirstIndex | src/index.js:101-104 | The row that creates a group is the first row with its key. |
| Grouping.Put | src/index.js:116-122 | Updating one running value leaves the count, the first row and the other running values alone. |
| Grouping.AccumulateFacts | src/index.js:96-128 | After the pass, every key that occurs has a group. The group counts its rows and holds its first row's group-by values. |
| Grouping.StepFacts | src/index.js:96-128 | One `forEach` iteration keeps that invariant. |
| Grouping.FirstSeenOrder | src/index.js:101-104 | Groups are created in order of their first row. |
| Grouping.OutputKeysFacts | src/index.js:131 | The result lists each key that occurs exactly once, and no other key. |
| Grouping.OutputKeysFirstSeen | src/index.js:131 | When no key is an array index, groups come out in order of first appearance. |
| Grouping.SetAggs | src/index.js:135-155 | Finalizing writes a value for each recognised aggregate expression and leaves the group-by values alone. |
| Grouping.FinalizeAll | src/index.js:131-158 | One output row per listed group, in the listed order. Each row holds its group's recorded group-by values, plus one column per recognised aggregate expression with that aggregate's value. |
| Grouping.ApplyGroupBy | src/index.js:93-160 | One row per distinct key. Each row has exactly the group-by fields and the recognised aggregate expressions. |
| Grouping.AccAt | src/index.js:101-107 | A group's count is the number of its rows, and its group-by values are those of its first row. |
| Grouping.GroupRowAt | src/index.js:131-157 | In the i-th group row, each COUNT column is the number of rows with that key. Each group-by field holds the group's first row's value. |
| Grouping.GroupCountAt | src/index.js:149-151 | A COUNT column is the group's row count. |
| Grouping.GroupFieldAt | src/index.js:134 | A group-by column shows the group's first row's value. |
| Grouping.EachRowOneGroup | src/index.js:96-104 | Every row belongs to exactly one output group. |
| Grouping.SameGroupIff | src/index.js:98-131 | Two input rows fall in the same output group (the members of one output key) exactly when their `-`-joined keys are equal. |
| Grouping.GroupSizesSum | src/index.js:96-107 | The group counts add up to the number of rows. |
| Grouping.AggStepSlot | src/index.js:108-123 | An aggregate expression updates only the running value of its own kind and column. |
| Grouping.AbsorbSlot | src/index.js:108-127 | One row updates a running value once per expression that names it: `n` such expressions apply the update `n` times, none leaves it unchanged. |
| Grouping.StepSlot | src/index.js:96-127 | A row creates or updates only its own group, and updates its running value once per expression naming it. |
| Grouping.RunningValue | src/index.js:96-127 | A group's running SUM, MIN or MAX is the fold of its rows' parsed values, in row order, each value folded in once per expression naming that running value. |
| Grouping.SeededOnce | src/index.js:114-123 | With one expression per running value, that fold is the plain seeded fold. |
| Grouping.GroupAggregateAt | src/index.js:112-148 | A SUM, MIN or MAX column of a group row shows that fold (the plain seeded fold with one expression per running value), or `undefined` when nothing was folded. |
| Grouping.SeededTwiceSumFinite | src/index.js:109-116 | With two expressions naming the same running SUM (`SUM(x), sum(x)`), a group over finite values shows twice its exact sum in both columns. |
| Grouping.SeededSumFinite | src/index.js:116 | Over finite values, the running SUM is the exact sum. |
| Grouping.SeededMinNoZero | src/index.js:119 | Over NaN-free values without a zero, the running MIN is `Math.min` of the group's values. |
| Grouping.SeededMaxNoZero | src/index.js:122 | Over NaN-free values without a zero, the running MAX is `Math.max` of the group's values. |
| Grouping.KeyCongruent | src/index.js:98 | Rows that agree on the group-by fields have the same key. |
| Grouping.UniqueGroups | src/index.js:96-107 | When all keys differ, every group has exactly one row. |
| Grouping.GroupRowsUniqueKeys | src/index.js:131-157 | Group rows have pairwise distinct keys, and each row's key is its group's key. |
| Grouping.GroupUniqueRows | src/index.js:149-151 | Grouping rows whose keys are all distinct gives one row per input row, each with COUNT 1. |
| Summary.SummaryColumn | src/index.js:205-208 | A summary field is recognised when the star pattern matches it and its function is COUNT, SUM, AVG, MIN or MAX. |
| Summary.SetSummary | src/index.js:204-227 | Each recognised field gets its aggregate, and other properties stay as they were. |
| Summary.Summarize | src/index.js:198-228 | The summary row has exactly the recognised aggregate fields, each with its value. |
| Summary.SummaryCount | src/index.js:209-211 | COUNT is the number of filtered rows. |
| Summary.SummaryEmpty | src/index.js:209-223 | Over no rows, COUNT and SUM are 0, AVG is NaN, MIN is +Infinity and MAX is -Infinity. |
| Summary.SummaryFinite | src/index.js:212-223 | Over finite values, SUM is the exact sum. AVG is the exact mean and lies between MIN and MAX. |
| Summary.AverageBetween | src/index.js:216-222 | The mean of finite values lies between their minimum and maximum. |
| Engine.Joined | src/index.js:170-184 | Without a join table and condition, the main table passes through unchanged. |
| Rows.Select | src/index.js:236-240 | A selected row has exactly the requested fields, with the row's values. Missing fields are `undefined`. A new group records its group-by values the same way (line 103). |
| Engine.Project | src/index.js:235-242 | One output row per input row, in order. Each has exactly the selected fields, holding that row's values (`undefined` where it has none). |
| Rows.SelectSame | src/index.js:235-242 | Selecting a row's own fields gives back the row. |
| Engine.ExecuteError | src/index.js:192-194 | A query fails exactly when its WHERE step raises. The error names an unsupported operator. Supported operators never fail. |
| Engine.ExecuteProjection | src/index.js:170-243 | A query without aggregates or GROUP BY returns the projection of the kept joined rows. There are no more rows than were joined, and each row has exactly the selected fields. |
| Engine.ExecuteSummary | src/index.js:196-228 | An aggregate query without GROUP BY returns one summary row over the kept rows. Its COUNT fields are the number of those rows. |
| Engine.ExecuteInnerJoin | src/index.js:170-243 | An inner-join query returns exactly the kept inner-join rows. Projection onto the selected fields changes nothing, because joined rows already have exactly those fields. |
| Engine.CorrectedGroupCounts | src/index.js:186-231 | With grouping done once, after WHERE, each COUNT column is the size of its group. |
| Findings.KeepUniqueKeys | src/index.js:193 | Filtering keeps distinct keys distinct. |
| Findings.FilteredGroupsUnique | src/index.js:186-194 | As written, the rows that reach the second grouping have pairwise distinct keys. |
| Findings.AsWrittenRegroups | src/index.js:186-231 | As written, a GROUP BY query groups the joined rows, filters the group rows, then groups them again. |
| Findings.GroupByCountsOne | src/index.js:186-231 | As written, every COUNT column of a GROUP BY query is 1, whatever the group sizes. |
| Findings.RegroupCountsOne | src/index.js:186-231 | Grouping a grouped table again by the same column gives COUNT 1 for every group. |
| Findings.CountByDeptAsWritten | src/index.js:186-231 | `SELECT dept, COUNT(*) ... GROUP BY dept` over departments eng, eng, hr returns COUNT 1 for both groups. |
| Findings.CountByDeptCorrected | src/index.js:186-231 | The corrected pipeline returns COUNT 2 for the first department on the same input. |
| Findings.PlusOne | src/index.js:107 | `count += 1` concatenates on a string operand and adds on a number. |
| Findings.CountAsWrittenString | src/index.js:101-107 | When `count` is a group-by field with a string value, the group's count stays a string that grows by one character per row. |
| Findings.CountAsWrittenNumber | src/index.js:101-107 | With a numeric first value c, the count after n rows is c + n rather than n. |
| Findings.CountCollision | src/index.js:101-107 | One row `{count: "5"}` grouped by `count` has COUNT `"51"`. |
| Findings.ZeroResets | src/index.js:119-122 | As written, a running MIN of 0 followed by 5 becomes 5, although `Math.min` is 0. The same happens to MAX with 0 and then -5. |
| Findings.NaNResets | src/index.js:116 | As written, a running SUM of NaN followed by 5 becomes 5, although the sum is NaN. |
| Findings.FoldedIsMath | src/index.js:116-122 | With only a never-set value treated as unset, the running SUM, MIN and MAX are exactly the `reduce` sum, `Math.min` and `Math.max` of the group's values. |

## Left out

- Reading the CSV files (`readCSV`), parsing the query text (`parseQuery`) and `console.log` are not modelled. The parsed query and both tables are parameters of `Engine.Execute`.
- `async`/`await` is not modelled: the function is treated as a synchronous computation over already-loaded tables.
- Numbers use exact real arithmetic instead of IEEE-754 doubles. Rounding, overflow to Infinity and the sign of zero are not modelled.
- NumberText.ToString is exact for integers below 10^21. For other numbers it writes a truncated decimal expansion rather than JavaScript's shortest round-trip form or exponent notation. This only matters for grouping keys built from such numbers.
- AggExpr.Upper maps only the ASCII letters `a`-`z`. Full Unicode case mapping of a join type (such as `ı` to `I`) is not modelled. The aggregate names it is applied to match `\w+` and so are ASCII.
- Rows.StrLess compares characters as Unicode scalar values. JavaScript compares UTF-16 code units, and the two orders differ only on text beyond the Basic Multilingual Plane.
- Group keys or column names that are also inherited `Object.prototype` properties (such as `constructor` or `__proto__`) are not modelled. Group-by fields named `sums`, `mins` or `maxes` are also left out: each would collide with the group's bookkeeping like `count` does under Findings.
- Grouping.Acc keeps a group's counters apart from its group-by values. The source stores both on one object, which is only different when a group-by field is named `count`, `sums`, `mins` or `maxes`. The `count` case is modelled as written in `Findings.CountAsWritten`.
- `Math.min(...)` and `Math.max(...)` throw a `RangeError` when spread over more arguments than the engine's call-stack limit allows. This is not modelled.
- The commented-out block at src/index.js:246-256 is dead text and not modelled.
- Grouped rows come out in `Object.values` order (src/index.js:131), not in order of first appearance: an array-index key such as `"7"` (from a numeric group-by column) comes before all other keys. `Grouping.OutputKeysFirstSeen` states when the two orders agree.
- A WHERE clause compares a string cell with the string literal lexicographically (src/index.js:269-272), not numerically, so `amount > 100` also keeps the row with amount `"50"`, since `"50" > "100"`. The model follows the code (`Where.EvaluateCompare`).
- Two expressions naming the same running value (`SUM(x)` and `sum(x)`) each fold every row into it (src/index.js:108-116), so both columns show the value folded twice. The model follows the code (`Grouping.RunningValue`, `Grouping.GroupAggregateAt`).
- Grouping.SeededTwiceSumFinite: states the resulting SUM for two such expressions only. For `n` expressions the fold is `Grouping.SeededN` with `n` updates per row, but the closed form `n` times the sum is not stated.
- The query-text parser, the CSV reader and the rest of the repository are not part of this model.

## Findings

| source | as written | input that shows it | evidently intended | confidence | as-written member | corrected member |
|---|---|---|---|---|---|---|
| src/index.js:186-187 | A GROUP BY query groups the rows before WHERE and then groups the filtered group rows again (lines 230-231). The second grouping sees one row per key, so every COUNT is 1. | `SELECT dept, COUNT(*) FROM employees GROUP BY dept` over rows with dept eng, eng, hr: both groups report COUNT 1 | group the filtered rows once, so eng reports COUNT 2 | high; not executed | Findings.CountByDeptAsWritten | Findings.CountByDeptCorrected |
| src/index.js:101-107 | The group-by values are stored on the same object as the `count` counter, so a group-by field named `count` overwrites it. `count += 1` then concatenates. | one row `{count: "5"}` grouped by `count` with `COUNT(*)` gives `"51"` | keep the row count apart from the group-by values | high; not executed | Findings.CountCollision | Grouping.GroupRowAt |
| src/index.js:119-122 | `Math.min(mins[x] \|\| value, value)` treats a running minimum of 0 as unset, and MAX does the same. | MIN over the values 0 then 5 gives 5 | only a never-set running value is replaced, so MIN is 0 | high; not executed | Findings.ZeroResets | Findings.FoldedIsMath |
| src/index.js:116 | `(sums[x] \|\| 0) + value` treats a NaN running sum as unset. | SUM over the values "x" then 5 gives 5 | a NaN term makes the sum NaN, as the summary SUM of line 213 does | medium; not executed | Findings.NaNResets | Findings.FoldedIsMath |

The model keeps the engine as written where it can: `Engine.Execute` groups twice, and `Grouping.SeedStep` keeps the `||` update. The corrected pipeline is `Engine.ExecuteCorrected`, and `Findings.Folded` is the corrected running value. The one exception is `Grouping.Acc`, which keeps the count apart from the group-by values.
