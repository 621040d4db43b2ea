/**
 Grouped aggregation: the one-pass executor, and the two pieces of the
 incremental path that must stay in lockstep with it, the membership maps and
 the recomputation of one group.
 */
module Aggregation {
  import opened Wrappers
  import opened Float64
  import opened Orders
  import opened Values
  import opened Predicates
  import opened SecIndex
  import opened Bitmaps
  import opened Planner
  import opened Executor
  import opened Grouping
  import opened Accumulators

  type RowMap = map<string, Json>

  datatype AggSpec = AggSpec(fn: AggFn, col: Option<nat>, expr: Option<NumExpr>, alias: string, q: Option<F64>)

  /** A scalar over aggregates, evaluated on the finished row. */
  datatype PostAgg = PostAgg(alias: string, eval: RowMap -> Json)

  /** An output column to order by, by name. */
  datatype OutputKey = OutputKey(name: string, ascending: bool)

  datatype AggQuery = AggQuery(
    predicate_: Predicate,
    groupBy: seq<nat>,
    aggregates: seq<AggSpec>,
    having: Option<RowMap -> bool>,
    postAgg: seq<PostAgg>,
    orderBy: seq<OutputKey>,
    limit: Option<nat>)

  predicate SpecFits(spec: AggSpec, types: seq<ColumnType>) {
    && (spec.expr.Some? ==> NumExprFits(spec.expr.value, types))
    && (spec.col.Some? ==> spec.col.value < |types|)
  }

  predicate AggFits(q: AggQuery, types: seq<ColumnType>) {
    && Fits(q.predicate_, types)
    && (forall i :: 0 <= i < |q.groupBy| ==> q.groupBy[i] < |types|)
    && (forall i :: 0 <= i < |q.aggregates| ==> SpecFits(q.aggregates[i], types))
  }

  // ---- the states of one group ----

  /** An expression always accumulates as a double. */
  function InputType(spec: AggSpec, types: seq<ColumnType>): Option<ColumnType>
    requires SpecFits(spec, types)
  {
    if spec.expr.Some? then Some(DoubleType)
    else if spec.col.Some? then Some(types[spec.col.value]) else None
  }

  /** What a row feeds to an aggregate; a NaN expression feeds what COUNT(*) does. */
  function InputOf(rt: Runtime, spec: AggSpec, types: seq<ColumnType>, row: Row): Option<Value>
    requires SpecFits(spec, types) && RowTyped(types, row)
  {
    if spec.expr.Some? then
      var v := EvalNum(rt.lib, spec.expr.value, types, row);
      if IsNaN(v) then None else Some(Double(v))
    else if spec.col.Some? then Some(row[spec.col.value]) else None
  }

  function InitStates(q: AggQuery, types: seq<ColumnType>): seq<AggState>
    requires AggFits(q, types)
  {
    seq(|q.aggregates|, i requires 0 <= i < |q.aggregates| =>
      Init(q.aggregates[i].fn, InputType(q.aggregates[i], types), q.aggregates[i].q))
  }

  function Absorbed(rt: Runtime, q: AggQuery, types: seq<ColumnType>, states: seq<AggState>, row: Row): seq<AggState>
    requires AggFits(q, types) && RowTyped(types, row) && |states| == |q.aggregates|
  {
    seq(|states|, i requires 0 <= i < |states| => Update(rt, states[i], InputOf(rt, q.aggregates[i], types, row)))
  }

  /** The update of every aggregate by one row of the table. */
  function StepOf(rt: Runtime, q: AggQuery, types: seq<ColumnType>, rows: seq<Row>)
    : (seq<AggState>, nat) -> seq<AggState>
    requires AggFits(q, types)
  {
    (states: seq<AggState>, r: nat) =>
      if r < |rows| && RowTyped(types, rows[r]) && |states| == |q.aggregates|
      then Absorbed(rt, q, types, states, rows[r]) else states
  }

  function RowKey(rt: Runtime, q: AggQuery, types: seq<ColumnType>, rows: seq<Row>): nat -> GroupKey
    requires AggFits(q, types)
  {
    (r: nat) => if r < |rows| && RowTyped(types, rows[r]) then KeyOf(q.groupBy, rows[r]) else []
  }

  function StatesOver(rt: Runtime, q: AggQuery, store: Store, members: seq<nat>): seq<AggState>
    requires AggFits(q, store.types)
  {
    Fold(InitStates(q, store.types), StepOf(rt, q, store.types, store.rows), members)
  }

  // ---- one output row ----

  function PartJson(rt: Runtime, part: KeyPart): Json {
    match part
    case NullPart => JNull
    case IntPart(i) => JInt(i)
    case LongPart(n) => JInt(n)
    case DoublePart(bits) => JsonOfF64(bits)
    case StringPart(s) => JString(s)
    case BoolPart(b) => JBool(b)
    case TimestampPart(t) => JString(rt.formatTimestamp(t))
  }

  function GroupNames(q: AggQuery, names: seq<string>): seq<string>
    requires forall i :: 0 <= i < |q.groupBy| ==> q.groupBy[i] < |names|
  {
    seq(|q.groupBy|, i requires 0 <= i < |q.groupBy| => names[q.groupBy[i]])
  }

  /** The first `n` group columns of a row map. */
  function KeyColumns(rt: Runtime, groupNames: seq<string>, key: GroupKey, n: nat): RowMap
    requires n <= |groupNames| && n <= |key|
  {
    if n == 0 then map[] else KeyColumns(rt, groupNames, key, n - 1)[groupNames[n - 1] := PartJson(rt, key[n - 1])]
  }

  function WithAggregates(rt: Runtime, m: RowMap, specs: seq<AggSpec>, states: seq<AggState>, n: nat): RowMap
    requires n <= |specs| && n <= |states|
  {
    if n == 0 then m
    else WithAggregates(rt, m, specs, states, n - 1)[specs[n - 1].alias := Finalize(rt, states[n - 1])]
  }

  const HIDDEN: string := "__postagg_"

  predicate Hidden(name: string) { HIDDEN <= name }

  function WithScalars(m: RowMap, post: seq<PostAgg>): RowMap {
    if post == [] then m
    else
      var front := WithScalars(m, post[..|post| - 1]);
      front[post[|post| - 1].alias := post[|post| - 1].eval(front)]
  }

  /** Scalars over aggregates are added, then the hidden aggregates they used are dropped. */
  function PostAggregated(q: AggQuery, m: RowMap): RowMap {
    if q.postAgg == [] then m
    else
      var all := WithScalars(m, q.postAgg);
      map k | k in all && !Hidden(k) :: all[k]
  }

  /** HAVING sees the row before the scalars are added. */
  function Emitted(q: AggQuery, m: RowMap): Option<RowMap> {
    if q.having.Some? && !q.having.value(m) then None else Some(PostAggregated(q, m))
  }

  function RowOf(rt: Runtime, q: AggQuery, groupNames: seq<string>, key: GroupKey, states: seq<AggState>): RowMap
    requires |key| <= |groupNames| && |states| == |q.aggregates|
  {
    WithAggregates(rt, KeyColumns(rt, groupNames, key, |key|), q.aggregates, states, |states|)
  }

  method BuildRow(rt: Runtime, q: AggQuery, groupNames: seq<string>, key: GroupKey, states: seq<AggState>)
    returns (r: Option<RowMap>)
    requires |key| <= |groupNames| && |states| == |q.aggregates|
    ensures r == Emitted(q, RowOf(rt, q, groupNames, key, states))
  {
    var m: RowMap := map[];
    for i := 0 to |key|
      invariant m == KeyColumns(rt, groupNames, key, i)
    {
      m := m[groupNames[i] := PartJson(rt, key[i])];
    }
    ghost var columns := m;
    for i := 0 to |states|
      invariant m == WithAggregates(rt, columns, q.aggregates, states, i)
    {
      m := m[q.aggregates[i].alias := Finalize(rt, states[i])];
    }
    if q.having.Some? && !q.having.value(m) { return None; }
    m := ApplyPostAgg(q, m);
    return Some(m);
  }

  method ApplyPostAgg(q: AggQuery, before: RowMap) returns (m: RowMap)
    ensures m == PostAggregated(q, before)
  {
    m := before;
    if q.postAgg == [] { return; }
    for i := 0 to |q.postAgg|
      invariant m == WithScalars(before, q.postAgg[..i])
    {
      assert q.postAgg[..i + 1][..i] == q.postAgg[..i];
      m := m[q.postAgg[i].alias := q.postAgg[i].eval(m)];
    }
    assert q.postAgg[..|q.postAgg|] == q.postAgg;
    m := map k | k in m && !Hidden(k) :: m[k];
  }

  // ---- one group ----

  lemma {:induction false} StatesLength(rt: Runtime, q: AggQuery, store: Store, members: seq<nat>)
    requires AggFits(q, store.types)
    ensures |StatesOver(rt, q, store, members)| == |q.aggregates|
  {
    if members != [] { StatesLength(rt, q, store, members[..|members| - 1]); }
  }

  /** What the rows of a group feed to aggregate `i`. */
  ghost function InputsOf(rt: Runtime, q: AggQuery, store: Store, members: seq<nat>, i: nat): seq<Option<Value>>
    requires AggFits(q, store.types) && store.Valid() && i < |q.aggregates|
    requires forall m :: 0 <= m < |members| ==> members[m] < |store.rows|
  {
    seq(|members|, m requires 0 <= m < |members| =>
      assert RowTyped(store.types, store.rows[members[m]]);
      InputOf(rt, q.aggregates[i], store.types, store.rows[members[m]]))
  }

  /** The state of each aggregate is its accumulation of what the rows of the group feed to it. */
  lemma {:induction false} StatesAccumulate(rt: Runtime, q: AggQuery, store: Store, members: seq<nat>, i: nat)
    requires AggFits(q, store.types) && store.Valid() && i < |q.aggregates|
    requires forall m :: 0 <= m < |members| ==> members[m] < |store.rows|
    ensures var states := StatesOver(rt, q, store, members);
            var spec := q.aggregates[i];
            && |states| == |q.aggregates|
            && states[i] ==
                Accumulate(rt, Init(spec.fn, InputType(spec, store.types), spec.q), InputsOf(rt, q, store, members, i))
  {
    StatesLength(rt, q, store, members);
    if members != [] {
      var front, last := members[..|members| - 1], members[|members| - 1];
      StatesAccumulate(rt, q, store, front, i);
      assert RowTyped(store.types, store.rows[last]);
      var inputs := InputsOf(rt, q, store, members, i);
      assert inputs[..|front|] == InputsOf(rt, q, store, front, i);
    }
  }

  /** An aggregate whose alias no later aggregate takes shows its final value under it. */
  lemma {:induction false} AggregateColumn(rt: Runtime, m: RowMap, specs: seq<AggSpec>, states: seq<AggState>, n: nat,
                                           i: nat)
    requires i < n <= |specs| && n <= |states| && forall j :: i < j < n ==> specs[j].alias != specs[i].alias
    ensures var row := WithAggregates(rt, m, specs, states, n);
            specs[i].alias in row && row[specs[i].alias] == Finalize(rt, states[i])
  {
    if i < n - 1 { AggregateColumn(rt, m, specs, states, n - 1, i); }
  }

  /** The row of a group from its key and its rows; `None` when HAVING drops it. */
  ghost function GroupRow(rt: Runtime, q: AggQuery, names: seq<string>, store: Store, key: GroupKey, members: seq<nat>)
    : Option<RowMap>
    requires AggFits(q, store.types) && |names| == |store.types| && |key| <= |q.groupBy|
  {
    StatesLength(rt, q, store, members);
    Emitted(q, RowOf(rt, q, GroupNames(q, names), key, StatesOver(rt, q, store, members)))
  }

  method FoldMembers(rt: Runtime, q: AggQuery, store: Store, members: seq<nat>) returns (states: seq<AggState>)
    requires AggFits(q, store.types)
    ensures states == StatesOver(rt, q, store, members) && |states| == |q.aggregates|
  {
    states := InitStates(q, store.types);
    var step := StepOf(rt, q, store.types, store.rows);
    for i := 0 to |members|
      invariant states == StatesOver(rt, q, store, members[..i])
    {
      assert members[..i + 1][..i] == members[..i];
      states := step(states, members[i]);
    }
    assert members[..|members|] == members;
    StatesLength(rt, q, store, members);
  }

  lemma KeyLength(rt: Runtime, q: AggQuery, store: Store, r: nat)
    requires AggFits(q, store.types)
    ensures |RowKey(rt, q, store.types, store.rows)(r)| <= |q.groupBy|
  {
  }

  /** A group recomputed from the set of its rows: the key comes from the first of them. */
  ghost function OneGroup(rt: Runtime, q: AggQuery, names: seq<string>, store: Store, members: RowSet): Option<RowMap>
    requires AggFits(q, store.types) && |names| == |store.types| && members != {}
  {
    var rows := Ascending(members);
    assert |rows| == |members| > 0;
    KeyLength(rt, q, store, rows[0]);
    GroupRow(rt, q, names, store, RowKey(rt, q, store.types, store.rows)(rows[0]), rows)
  }

  method AggregateOneGroup(rt: Runtime, q: AggQuery, names: seq<string>, store: Store, members: RowSet)
    returns (row: Option<RowMap>)
    requires AggFits(q, store.types) && |names| == |store.types| && members != {}
    ensures row == OneGroup(rt, q, names, store, members)
  {
    var rows := Ascending(members);
    assert |rows| == |members| > 0;
    var states := FoldMembers(rt, q, store, rows);
    var key := RowKey(rt, q, store.types, store.rows)(rows[0]);
    KeyLength(rt, q, store, rows[0]);
    row := BuildRow(rt, q, GroupNames(q, names), key, states);
  }

  // ---- the one-pass executor ----

  function IsLive(live: Option<RowSet>): nat -> bool { (r: nat) => live.None? || r in live.value }

  /** The live matching rows, ascending. */
  ghost function LiveMatches(lib: Library, p: Predicate, store: Store, live: Option<RowSet>): seq<nat>
    requires store.Valid() && Fits(p, store.types)
  {
    Members(Scan(lib, p, store, |store.rows|), IsLive(live), true)
  }

  lemma LiveMatchesAre(lib: Library, p: Predicate, store: Store, live: Option<RowSet>)
    requires store.Valid() && Fits(p, store.types)
    ensures StrictlyUp(LiveMatches(lib, p, store, live))
    ensures forall r: nat :: r in LiveMatches(lib, p, store, live) <==>
              MatchingRow(lib, p, store, r) && (live.None? || r in live.value)
  {
    var scan := Scan(lib, p, store, |store.rows|);
    ScanIsExact(lib, p, store, |store.rows|);
    MembersAscend(scan, IsLive(live), true);
    forall r: nat ensures r in LiveMatches(lib, p, store, live) <==>
                          MatchingRow(lib, p, store, r) && (live.None? || r in live.value) {
      MembersAre(scan, IsLive(live), true, r);
    }
  }

  method Keep(scan: seq<nat>, keep: nat -> bool) returns (rows: seq<nat>)
    ensures rows == Members(scan, keep, true)
  {
    rows := [];
    for i := 0 to |scan|
      invariant rows == Members(scan[..i], keep, true)
    {
      MembersSnoc(scan[..i], keep, scan[i], true);
      assert scan[..i + 1] == scan[..i] + [scan[i]];
      if keep(scan[i]) { rows := rows + [scan[i]]; }
    }
    assert scan[..|scan|] == scan;
  }

  /** The live rows the index offers. */
  ghost function LiveOffered(lib: Library, p: Predicate, store: Store, index: Option<Index>,
                             live: Option<RowSet>): seq<nat>
    requires store.Valid() && Fits(p, store.types)
  {
    Members(Offered(lib, p, store, index), IsLive(live), true)
  }

  /** No live matching row is lost to a zero. */
  ghost predicate NoneLost(lib: Library, p: Predicate, store: Store, index: Option<Index>, live: Option<RowSet>)
    requires store.Valid() && Fits(p, store.types)
  {
    forall r: nat :: MatchingRow(lib, p, store, r) && IsLive(live)(r) ==> Kept(lib, p, store, index)(r)
  }

  lemma LiveOfferedExactly(lib: Library, p: Predicate, store: Store, index: Option<Index>, live: Option<RowSet>)
    requires store.Valid() && Fits(p, store.types)
    ensures LiveOffered(lib, p, store, index, live) == LiveMatches(lib, p, store, live) <==>
            NoneLost(lib, p, store, index, live)
  {
    var offered := Offered(lib, p, store, index);
    OfferedAre(lib, p, store, index);
    LiveMatchesAre(lib, p, store, live);
    MembersAscend(offered, IsLive(live), true);
    forall r: nat ensures r in LiveOffered(lib, p, store, index, live) <==> r in offered && IsLive(live)(r) {
      MembersAre(offered, IsLive(live), true, r);
    }
    AscendingSubset(LiveOffered(lib, p, store, index, live), LiveMatches(lib, p, store, live));
  }

  /** Candidates, the liveness filter and the predicate: the live matching rows exactly if none is lost to a zero. */
  method FindRows(lib: Library, p: Predicate, store: Store, index: Option<Index>, live: Option<RowSet>)
    returns (rows: seq<nat>)
    requires store.Valid() && Fits(p, store.types)
    requires index.Some? ==> InSync(index.value, store)
    ensures rows == LiveOffered(lib, p, store, index, live)
    ensures rows == LiveMatches(lib, p, store, live) <==> NoneLost(lib, p, store, index, live)
  {
    var offered := MatchingRows(lib, p, store, index);
    rows := Keep(offered, IsLive(live));
    LiveOfferedExactly(lib, p, store, index, live);
  }

  /** The row the executor makes for a group key, from the rows that carry it. */
  ghost function RowFor(rt: Runtime, q: AggQuery, names: seq<string>, store: Store, rows: seq<nat>)
    : GroupKey -> Option<RowMap>
    requires AggFits(q, store.types) && |names| == |store.types|
  {
    (key: GroupKey) =>
      if |key| <= |q.groupBy|
      then GroupRow(rt, q, names, store, key, Members(rows, RowKey(rt, q, store.types, store.rows), key)) else None
  }

  lemma OrderLengths(rt: Runtime, q: AggQuery, store: Store, rows: seq<nat>)
    requires AggFits(q, store.types)
    ensures forall i :: 0 <= i < |FirstSeen(Keys(rows, RowKey(rt, q, store.types, store.rows)))| ==>
              |FirstSeen(Keys(rows, RowKey(rt, q, store.types, store.rows)))[i]| <= |q.groupBy|
  {
    var keys := Keys(rows, RowKey(rt, q, store.types, store.rows));
    FirstSeenLaws(keys);
    var order := FirstSeen(keys);
    forall i | 0 <= i < |order| ensures |order[i]| <= |q.groupBy| {
      assert order[i] in keys;
      var j :| 0 <= j < |keys| && keys[j] == order[i];
      KeyLength(rt, q, store, rows[j]);
    }
  }

  /** One row per group, first-seen order; without GROUP BY, an empty input still makes one group. */
  ghost function FullRows(rt: Runtime, q: AggQuery, names: seq<string>, store: Store, rows: seq<nat>): seq<RowMap>
    requires AggFits(q, store.types) && |names| == |store.types|
  {
    var order := FirstSeen(Keys(rows, RowKey(rt, q, store.types, store.rows)));
    if order == [] && q.groupBy == [] && q.aggregates != [] then
      var row := GroupRow(rt, q, names, store, [], []);
      if row.Some? then [row.value] else []
    else Collect(order, RowFor(rt, q, names, store, rows))
  }

  // ---- ORDER BY on output columns ----

  function Number(lib: Library, j: Json): F64
    requires j.JInt? || j.JFloat?
  {
    if j.JInt? then lib.ofInt(j.i) else j.d
  }

  /** Absent before null before the rest; numbers by value, strings by text, anything else equal. */
  function CompareJson(lib: Library, a: Option<Json>, b: Option<Json>): Ordering {
    if a.None? then (if b.None? then Equal else Ordering.Less)
    else if b.None? then Greater
    else if a.value.JNull? then (if b.value.JNull? then Equal else Ordering.Less)
    else if b.value.JNull? then Greater
    else if (a.value.JInt? || a.value.JFloat?) && (b.value.JInt? || b.value.JFloat?) then
      var x, y := Number(lib, a.value), Number(lib, b.value);
      if IsNaN(x) || IsNaN(y) then Equal else CompareDouble(x, y)
    else if a.value.JString? && b.value.JString? then CompareString(a.value.s, b.value.s)
    else Equal
  }

  function CellIn(m: RowMap, name: string): Option<Json> { if name in m then Some(m[name]) else None }

  function CompareOutput(lib: Library, keys: seq<OutputKey>, a: RowMap, b: RowMap): Ordering {
    if keys == [] then Equal
    else
      var ord := CompareJson(lib, CellIn(a, keys[0].name), CellIn(b, keys[0].name));
      var ord := if keys[0].ascending then ord else ord.Reverse();
      if ord != Equal then ord else CompareOutput(lib, keys[1..], a, b)
  }

  function OutputOrder(lib: Library, keys: seq<OutputKey>): (RowMap, RowMap) -> bool {
    (a: RowMap, b: RowMap) => CompareOutput(lib, keys, a, b) != Greater
  }

  /** How a cell takes part in the comparison; a NaN, which JSON cannot hold, in none. */
  datatype CellKind = Nothing | Numeric | Textual | Other | Unordered

  function KindOf(lib: Library, c: Option<Json>): CellKind {
    if c.None? || c.value.JNull? then Nothing
    else if c.value.JInt? || c.value.JFloat? then (if IsNaN(Number(lib, c.value)) then Unordered else Numeric)
    else if c.value.JString? then Textual else Other
  }

  lemma CompareJsonAntisymmetric(lib: Library, a: Option<Json>, b: Option<Json>)
    ensures CompareJson(lib, b, a) == CompareJson(lib, a, b).Reverse()
    ensures CompareJson(lib, a, a) == Equal
  {
    if KindOf(lib, a) == Numeric && KindOf(lib, b) == Numeric {
      CompareValuesAntisymmetric(Double(Number(lib, a.value)), Double(Number(lib, b.value)));
    }
    if KindOf(lib, a) == Numeric {
      CompareValuesAntisymmetric(Double(Number(lib, a.value)), Double(Number(lib, a.value)));
    }
    if KindOf(lib, a) == Textual { CompareStringAntisymmetric(a.value.s, a.value.s); }
    if KindOf(lib, a) == Textual && KindOf(lib, b) == Textual { CompareStringAntisymmetric(a.value.s, b.value.s); }
  }

  /** Nothing, or of the given kind. */
  predicate Fitting(lib: Library, kind: CellKind, c: Option<Json>) {
    kind != Unordered && (KindOf(lib, c) == Nothing || KindOf(lib, c) == kind)
  }

  lemma CompareJsonTransitive(lib: Library, kind: CellKind, a: Option<Json>, b: Option<Json>, c: Option<Json>)
    requires Fitting(lib, kind, a) && Fitting(lib, kind, b) && Fitting(lib, kind, c)
    requires CompareJson(lib, a, b) != Greater && CompareJson(lib, b, c) != Greater
    ensures CompareJson(lib, a, c) != Greater
    ensures CompareJson(lib, a, b) == Ordering.Less || CompareJson(lib, b, c) == Ordering.Less ==>
              CompareJson(lib, a, c) == Ordering.Less
  {
    if KindOf(lib, a) == KindOf(lib, b) == KindOf(lib, c) == Numeric {
      CompareValuesTransitive(Double(Number(lib, a.value)), Double(Number(lib, b.value)),
                              Double(Number(lib, c.value)), DoubleType);
    }
    if KindOf(lib, a) == KindOf(lib, b) == KindOf(lib, c) == Textual {
      CompareValuesTransitive(String(Some(a.value.s)), String(Some(b.value.s)), String(Some(c.value.s)), StringType);
    }
  }

  /** Every ORDER BY column of a row holds nothing or a cell of the column's kind. */
  ghost predicate FitsKinds(lib: Library, keys: seq<OutputKey>, kinds: seq<CellKind>, row: RowMap) {
    |kinds| == |keys| && forall i :: 0 <= i < |keys| ==> Fitting(lib, kinds[i], CellIn(row, keys[i].name))
  }

  lemma {:induction false} CompareOutputAntisymmetric(lib: Library, keys: seq<OutputKey>, a: RowMap, b: RowMap)
    ensures CompareOutput(lib, keys, b, a) == CompareOutput(lib, keys, a, b).Reverse()
  {
    if keys != [] {
      CompareJsonAntisymmetric(lib, CellIn(a, keys[0].name), CellIn(b, keys[0].name));
      CompareOutputAntisymmetric(lib, keys[1..], a, b);
    }
  }

  lemma {:induction false} CompareOutputTransitive(lib: Library, keys: seq<OutputKey>, kinds: seq<CellKind>,
                                                   a: RowMap, b: RowMap, c: RowMap)
    requires FitsKinds(lib, keys, kinds, a) && FitsKinds(lib, keys, kinds, b) && FitsKinds(lib, keys, kinds, c)
    requires CompareOutput(lib, keys, a, b) != Greater && CompareOutput(lib, keys, b, c) != Greater
    ensures CompareOutput(lib, keys, a, c) != Greater
  {
    if keys != [] {
      var n := keys[0].name;
      var x, y, z := CellIn(a, n), CellIn(b, n), CellIn(c, n);
      CompareJsonAntisymmetric(lib, x, y);
      CompareJsonAntisymmetric(lib, y, z);
      CompareJsonAntisymmetric(lib, x, z);
      if keys[0].ascending {
        CompareJsonTransitive(lib, kinds[0], x, y, z);
      } else {
        CompareJsonTransitive(lib, kinds[0], z, y, x);
      }
      if CompareJson(lib, x, y) == Equal && CompareJson(lib, y, z) == Equal {
        CompareOutputTransitive(lib, keys[1..], kinds[1..], a, b, c);
      }
    }
  }

  /** If every ORDER BY column is of one kind, the rows come out in order, ties as they were. */
  lemma SortedOutput(lib: Library, keys: seq<OutputKey>, kinds: seq<CellKind>, rows: seq<RowMap>,
                     tie: (RowMap, RowMap) -> bool)
    requires (forall i :: 0 <= i < |rows| ==> FitsKinds(lib, keys, kinds, rows[i])) && Ascends(tie, rows)
    ensures AscendsBy(OutputOrder(lib, keys), tie, StableSort(rows, OutputOrder(lib, keys)))
  {
    var le := OutputOrder(lib, keys);
    forall a, b | a in rows && b in rows ensures le(a, b) || le(b, a) { CompareOutputAntisymmetric(lib, keys, a, b); }
    forall a, b, c | a in rows && b in rows && c in rows && le(a, b) && le(b, c) ensures le(a, c) {
      CompareOutputTransitive(lib, keys, kinds, a, b, c);
    }
    StableSortAscends(rows, le, tie);
  }

  function Arranged(lib: Library, q: AggQuery, rows: seq<RowMap>): seq<RowMap> {
    var ordered := if q.orderBy != [] then StableSort(rows, OutputOrder(lib, q.orderBy)) else rows;
    if q.limit.Some? && q.limit.value < |ordered| then ordered[..q.limit.value] else ordered
  }

  /** Emit one row per group, in order of first appearance, unless HAVING drops it. */
  method EmitGroups(rt: Runtime, q: AggQuery, groupNames: seq<string>, groups: map<GroupKey, seq<AggState>>,
                    order: seq<GroupKey>, ghost make: GroupKey -> Option<RowMap>)
    returns (out: seq<RowMap>)
    requires forall k :: k in order ==> k in groups && |k| <= |groupNames| && |groups[k]| == |q.aggregates|
    requires forall k :: k in order ==> make(k) == Emitted(q, RowOf(rt, q, groupNames, k, groups[k]))
    ensures out == Collect(order, make)
  {
    out := [];
    for i := 0 to |order|
      invariant out == Collect(order[..i], make)
    {
      assert order[..i + 1][..i] == order[..i];
      assert order[i] in order;
      var row := BuildRow(rt, q, groupNames, order[i], groups[order[i]]);
      if row.Some? { out := out + [row.value]; }
    }
    assert order[..|order|] == order;
  }

  lemma FoldedMakesRows(rt: Runtime, q: AggQuery, names: seq<string>, store: Store, rows: seq<nat>,
                        groups: map<GroupKey, seq<AggState>>, order: seq<GroupKey>, k: GroupKey)
    requires AggFits(q, store.types) && |names| == |store.types|
    requires Grouped(groups, order, rows, RowKey(rt, q, store.types, store.rows), InitStates(q, store.types),
                     StepOf(rt, q, store.types, store.rows))
    requires k in order
    ensures k in groups && |k| <= |q.groupBy| && |groups[k]| == |q.aggregates|
    ensures RowFor(rt, q, names, store, rows)(k) == Emitted(q, RowOf(rt, q, GroupNames(q, names), k, groups[k]))
  {
    var keyOf := RowKey(rt, q, store.types, store.rows);
    FirstSeenLaws(Keys(rows, keyOf));
    assert |k| <= |q.groupBy| by { OrderLengths(rt, q, store, rows); }
    StatesLength(rt, q, store, Members(rows, keyOf, k));
    assert groups[k] == StatesOver(rt, q, store, Members(rows, keyOf, k));
  }

  /** One pass over the live matching rows gives each group the fold over exactly its own rows. */
  method GroupRowsOf(rt: Runtime, q: AggQuery, names: seq<string>, store: Store, rows: seq<nat>)
    returns (out: seq<RowMap>)
    requires AggFits(q, store.types) && |names| == |store.types|
    ensures out == FullRows(rt, q, names, store, rows)
  {
    var init := InitStates(q, store.types);
    var groups, order :=
        GroupFold(rows, RowKey(rt, q, store.types, store.rows), init, StepOf(rt, q, store.types, store.rows));
    if order == [] && q.groupBy == [] && q.aggregates != [] {
      var row := BuildRow(rt, q, GroupNames(q, names), [], init);
      out := if row.Some? then [row.value] else [];
    } else {
      forall k | k in order
        ensures k in groups && |k| <= |q.groupBy| && |groups[k]| == |q.aggregates|
        ensures RowFor(rt, q, names, store, rows)(k) == Emitted(q, RowOf(rt, q, GroupNames(q, names), k, groups[k]))
      {
        FoldedMakesRows(rt, q, names, store, rows, groups, order, k);
      }
      out := EmitGroups(rt, q, GroupNames(q, names), groups, order, RowFor(rt, q, names, store, rows));
    }
  }

  method ExecuteAggregate(rt: Runtime, q: AggQuery, names: seq<string>, store: Store, index: Option<Index>,
                          live: Option<RowSet>) returns (out: seq<RowMap>)
    requires store.Valid() && AggFits(q, store.types) && |names| == |store.types|
    requires index.Some? ==> InSync(index.value, store)
    ensures out ==
            Arranged(rt.lib, q, FullRows(rt, q, names, store, LiveOffered(rt.lib, q.predicate_, store, index, live)))
    ensures NoneLost(rt.lib, q.predicate_, store, index, live) ==>
              out == Arranged(rt.lib, q, FullRows(rt, q, names, store, LiveMatches(rt.lib, q.predicate_, store, live)))
  {
    var rows := FindRows(rt.lib, q.predicate_, store, index, live);
    var groups := GroupRowsOf(rt, q, names, store, rows);
    out := Arrange(rt.lib, q, groups);
  }

  method Arrange(lib: Library, q: AggQuery, rows: seq<RowMap>) returns (out: seq<RowMap>)
    ensures out == Arranged(lib, q, rows)
  {
    out := rows;
    if q.orderBy != [] { out := StableSort(out, OutputOrder(lib, q.orderBy)); }
    if q.limit.Some? && q.limit.value < |out| { out := out[..q.limit.value]; }
  }

  // ---- the canonical key ----

  /** The group columns of a row map, in declared order, as text. */
  function CanonicalOf(rt: Runtime, groupNames: seq<string>, m: RowMap): string {
    rt.serialize(seq(|groupNames|, i requires 0 <= i < |groupNames| =>
      (groupNames[i], if groupNames[i] in m then m[groupNames[i]] else JNull)))
  }

  /** The canonical key of a row, straight from the store. */
  function CanonicalKey(rt: Runtime, q: AggQuery, names: seq<string>, store: Store): nat -> string
    requires AggFits(q, store.types) && |names| == |store.types|
  {
    var keyOf := RowKey(rt, q, store.types, store.rows);
    (r: nat) =>
      var key := keyOf(r);
      if |key| <= |q.groupBy|
      then CanonicalOf(rt, GroupNames(q, names), KeyColumns(rt, GroupNames(q, names), key, |key|)) else ""
  }

  ghost predicate UniqueNames(names: seq<string>) { forall i, j :: 0 <= i < j < |names| ==> names[i] != names[j] }

  /** Formatting a timestamp and serialising a key lose nothing. */
  ghost predicate Faithful(rt: Runtime) {
    Injective(rt.formatTimestamp) && Injective(rt.serialize)
  }

  /** Shown as JSON null: the null part, and infinities. */
  predicate ShownAsNull(part: KeyPart) { part.NullPart? || (part.DoublePart? && !IsFinite(part.bits)) }

  /** Parts of one column: equal in JSON exactly when equal, or both shown as null. */
  lemma PartJsonInjective(rt: Runtime, a: Value, b: Value, ty: ColumnType)
    requires a.HasType(ty) && b.HasType(ty) && Injective(rt.formatTimestamp)
    ensures var x, y := PartOf(a), PartOf(b);
            PartJson(rt, x) == PartJson(rt, y) <==> x == y || (ShownAsNull(x) && ShownAsNull(y))
  {
  }

  /** Every group column keeps its own part: equal names mean the same column. */
  lemma {:induction false} KeyColumnsLookup(rt: Runtime, groupNames: seq<string>, key: GroupKey, n: nat, i: nat)
    requires n <= |groupNames| && n <= |key| && i < n
    requires forall a, b :: 0 <= a < n && 0 <= b < n && groupNames[a] == groupNames[b] ==> key[a] == key[b]
    ensures groupNames[i] in KeyColumns(rt, groupNames, key, n)
    ensures KeyColumns(rt, groupNames, key, n)[groupNames[i]] == PartJson(rt, key[i])
  {
    if i < n - 1 { KeyColumnsLookup(rt, groupNames, key, n - 1, i); }
  }

  /** Two keys whose JSON is the same: part by part equal, or both shown as null. */
  predicate Merged(a: GroupKey, b: GroupKey) {
    |a| == |b| && forall i :: 0 <= i < |a| ==> a[i] == b[i] || (ShownAsNull(a[i]) && ShownAsNull(b[i]))
  }

  function KeyPairs(rt: Runtime, groupNames: seq<string>, key: GroupKey): seq<(string, Json)>
    requires |key| == |groupNames|
  {
    seq(|key|, i requires 0 <= i < |key| => (groupNames[i], PartJson(rt, key[i])))
  }

  lemma CanonicalIsPairs(rt: Runtime, q: AggQuery, names: seq<string>, store: Store, r: nat)
    requires store.Valid() && AggFits(q, store.types) && |names| == |store.types| && UniqueNames(names)
    requires r < |store.rows|
    ensures var key := RowKey(rt, q, store.types, store.rows)(r);
            && |key| == |q.groupBy|
            && CanonicalKey(rt, q, names, store)(r) == rt.serialize(KeyPairs(rt, GroupNames(q, names), key))
  {
    var key, groupNames := RowKey(rt, q, store.types, store.rows)(r), GroupNames(q, names);
    assert RowTyped(store.types, store.rows[r]);
    forall i | 0 <= i < |key|
      ensures groupNames[i] in KeyColumns(rt, groupNames, key, |key|)
      ensures KeyColumns(rt, groupNames, key, |key|)[groupNames[i]] == PartJson(rt, key[i])
    {
      KeyColumnsLookup(rt, groupNames, key, |key|, i);
    }
    var m := KeyColumns(rt, groupNames, key, |key|);
    assert seq(|groupNames|, i requires 0 <= i < |groupNames| =>
             (groupNames[i], if groupNames[i] in m then m[groupNames[i]] else JNull)) == KeyPairs(rt, groupNames, key);
  }

  lemma MergedIsSameJson(rt: Runtime, q: AggQuery, names: seq<string>, store: Store, r: nat, s: nat)
    requires store.Valid() && AggFits(q, store.types) && |names| == |store.types| && Injective(rt.formatTimestamp)
    requires r < |store.rows| && s < |store.rows|
    ensures var keyOf := RowKey(rt, q, store.types, store.rows);
            && |keyOf(r)| == |keyOf(s)| == |q.groupBy|
            && (Merged(keyOf(r), keyOf(s)) <==>
                KeyPairs(rt, GroupNames(q, names), keyOf(r)) == KeyPairs(rt, GroupNames(q, names), keyOf(s)))
  {
    var keyOf, groupNames := RowKey(rt, q, store.types, store.rows), GroupNames(q, names);
    assert RowTyped(store.types, store.rows[r]) && RowTyped(store.types, store.rows[s]);
    var a, b := keyOf(r), keyOf(s);
    forall i | 0 <= i < |a|
      ensures PartJson(rt, a[i]) == PartJson(rt, b[i]) <==> a[i] == b[i] || (ShownAsNull(a[i]) && ShownAsNull(b[i]))
    {
      var c := q.groupBy[i];
      PartJsonInjective(rt, store.rows[r][c], store.rows[s][c], store.types[c]);
    }
    var x, y := KeyPairs(rt, groupNames, a), KeyPairs(rt, groupNames, b);
    assert forall i :: 0 <= i < |a| ==>
             x[i] == (groupNames[i], PartJson(rt, a[i])) && y[i] == (groupNames[i], PartJson(rt, b[i]));
  }

  /** Two rows share a canonical key exactly when their group keys merge. */
  lemma CanonicalAgrees(rt: Runtime, q: AggQuery, names: seq<string>, store: Store, r: nat, s: nat)
    requires store.Valid() && AggFits(q, store.types) && |names| == |store.types| && UniqueNames(names) && Faithful(rt)
    requires r < |store.rows| && s < |store.rows|
    ensures var keyOf := RowKey(rt, q, store.types, store.rows);
            CanonicalKey(rt, q, names, store)(r) == CanonicalKey(rt, q, names, store)(s) <==> Merged(keyOf(r), keyOf(s))
  {
    CanonicalIsPairs(rt, q, names, store, r);
    CanonicalIsPairs(rt, q, names, store, s);
    MergedIsSameJson(rt, q, names, store, r, s);
    var keyOf, groupNames := RowKey(rt, q, store.types, store.rows), GroupNames(q, names);
    var x, y := KeyPairs(rt, groupNames, keyOf(r)), KeyPairs(rt, groupNames, keyOf(s));
    assert rt.serialize(x) == rt.serialize(y) ==> x == y;
  }

  // ---- membership maps ----

  /** Which rows are in which group, both ways round. */
  ghost predicate MembershipOf(groupRows: map<string, RowSet>, rowGroup: map<nat, string>, rows: set<nat>,
                               canon: nat -> string)
  {
    && (forall r: nat :: r in rowGroup <==> r in rows)
    && (forall r: nat :: r in rowGroup ==> rowGroup[r] == canon(r))
    && (forall k, r: nat :: (k in groupRows && r in groupRows[k]) <==> (r in rowGroup && rowGroup[r] == k))
    && (forall k :: k in groupRows ==> groupRows[k] != {})
  }

  lemma AddMember(groupRows: map<string, RowSet>, rowGroup: map<nat, string>, rows: set<nat>, canon: nat -> string,
                  row: nat)
    requires MembershipOf(groupRows, rowGroup, rows, canon) && row !in rows
    ensures var key := canon(row);
            MembershipOf(groupRows[key := (if key in groupRows then groupRows[key] else {}) + {row}],
                         rowGroup[row := key], rows + {row}, canon)
  {
  }

  ghost function RowsIn(rows: seq<nat>): set<nat> { set r | r in rows }

  method BuildMembership(rt: Runtime, q: AggQuery, names: seq<string>, store: Store, live: Option<RowSet>)
    returns (groupRows: map<string, RowSet>, rowGroup: map<nat, string>)
    requires store.Valid() && AggFits(q, store.types) && |names| == |store.types|
    ensures MembershipOf(groupRows, rowGroup, RowsIn(LiveMatches(rt.lib, q.predicate_, store, live)),
                         CanonicalKey(rt, q, names, store))
  {
    var rows := FindRows(rt.lib, q.predicate_, store, None, live);
    LiveMatchesAre(rt.lib, q.predicate_, store, live);
    groupRows, rowGroup := FileRows(rows, CanonicalKey(rt, q, names, store));
  }

  method FileRows(rows: seq<nat>, canon: nat -> string)
    returns (groupRows: map<string, RowSet>, rowGroup: map<nat, string>)
    requires StrictlyUp(rows)
    ensures MembershipOf(groupRows, rowGroup, RowsIn(rows), canon)
  {
    groupRows, rowGroup := map[], map[];
    for i := 0 to |rows|
      invariant MembershipOf(groupRows, rowGroup, RowsIn(rows[..i]), canon)
    {
      var row := rows[i];
      var key := canon(row);
      AddMember(groupRows, rowGroup, RowsIn(rows[..i]), canon, row);
      assert RowsIn(rows[..i + 1]) == RowsIn(rows[..i]) + {row};
      groupRows := groupRows[key := (if key in groupRows then groupRows[key] else {}) + {row}];
      rowGroup := rowGroup[row := key];
    }
    assert rows[..|rows|] == rows;
  }

  // ---- lockstep ----

  /** No two rows whose keys merge without being equal: an infinity never meets a null or the other infinity. */
  ghost predicate ClashFree(keyOf: nat -> GroupKey, rows: seq<nat>) {
    forall r: nat, s: nat :: r in rows && s in rows && Merged(keyOf(r), keyOf(s)) ==> keyOf(r) == keyOf(s)
  }

  /** Everything the comparison of the two paths rests on. */
  ghost predicate Comparable(rt: Runtime, q: AggQuery, names: seq<string>, store: Store) {
    store.Valid() && AggFits(q, store.types) && |names| == |store.types| && UniqueNames(names) && Faithful(rt)
  }

  ghost function MatchesOf(rt: Runtime, q: AggQuery, store: Store, live: Option<RowSet>): seq<nat>
    requires store.Valid() && AggFits(q, store.types)
  {
    LiveMatches(rt.lib, q.predicate_, store, live)
  }

  /** Membership of the live matching rows under the canonical key. */
  ghost predicate Membership(rt: Runtime, q: AggQuery, names: seq<string>, store: Store, live: Option<RowSet>,
                             groupRows: map<string, RowSet>, rowGroup: map<nat, string>)
    requires Comparable(rt, q, names, store)
  {
    MembershipOf(groupRows, rowGroup, RowsIn(MatchesOf(rt, q, store, live)), CanonicalKey(rt, q, names, store))
  }

  lemma MatchesInside(rt: Runtime, q: AggQuery, store: Store, live: Option<RowSet>, r: nat)
    requires store.Valid() && AggFits(q, store.types)
    ensures r in MatchesOf(rt, q, store, live) ==> r < |store.rows|
  {
    LiveMatchesAre(rt.lib, q.predicate_, store, live);
  }

  /** The rows of a bitmap are those with the canonical key of any one of them. */
  lemma SameBitmap(groupRows: map<string, RowSet>, rowGroup: map<nat, string>, rows: set<nat>, canon: nat -> string,
                   k: string, r: nat, s: nat)
    requires MembershipOf(groupRows, rowGroup, rows, canon) && k in groupRows && r in groupRows[k]
    ensures r in rows && canon(r) == k
    ensures s in groupRows[k] <==> s in rows && canon(s) == k
  {
  }

  /** The bitmap of a group holds the rows whose keys merge with that of any one of them. */
  lemma GroupIsMerged(rt: Runtime, q: AggQuery, names: seq<string>, store: Store, live: Option<RowSet>,
                      groupRows: map<string, RowSet>, rowGroup: map<nat, string>, k: string, r: nat, s: nat)
    requires Comparable(rt, q, names, store) && Membership(rt, q, names, store, live, groupRows, rowGroup)
    requires k in groupRows && r in groupRows[k]
    ensures var keyOf := RowKey(rt, q, store.types, store.rows);
            && r in MatchesOf(rt, q, store, live)
            && (s in groupRows[k] <==> s in MatchesOf(rt, q, store, live) && Merged(keyOf(r), keyOf(s)))
  {
    var rows, canon := MatchesOf(rt, q, store, live), CanonicalKey(rt, q, names, store);
    SameBitmap(groupRows, rowGroup, RowsIn(rows), canon, k, r, s);
    MatchesInside(rt, q, store, live, r);
    MatchesInside(rt, q, store, live, s);
    if s in rows { CanonicalAgrees(rt, q, names, store, r, s); }
  }

  /** Without clashes, the rows of a bitmap are exactly those the executor folds into the group. */
  lemma GroupIsExecutors(rt: Runtime, q: AggQuery, names: seq<string>, store: Store, live: Option<RowSet>,
                         groupRows: map<string, RowSet>, rowGroup: map<nat, string>, k: string, r: nat)
    requires Comparable(rt, q, names, store) && Membership(rt, q, names, store, live, groupRows, rowGroup)
    requires k in groupRows && r in groupRows[k]
    requires ClashFree(RowKey(rt, q, store.types, store.rows), MatchesOf(rt, q, store, live))
    ensures var keyOf, rows := RowKey(rt, q, store.types, store.rows), MatchesOf(rt, q, store, live);
            Ascending(groupRows[k]) == Members(rows, keyOf, keyOf(r))
  {
    var keyOf, rows := RowKey(rt, q, store.types, store.rows), MatchesOf(rt, q, store, live);
    LiveMatchesAre(rt.lib, q.predicate_, store, live);
    MembersAscend(rows, keyOf, keyOf(r));
    forall s: nat ensures s in Ascending(groupRows[k]) <==> s in Members(rows, keyOf, keyOf(r)) {
      GroupIsMerged(rt, q, names, store, live, groupRows, rowGroup, k, r, s);
      MembersAre(rows, keyOf, keyOf(r), s);
    }
    AscendingUnique(Ascending(groupRows[k]), Members(rows, keyOf, keyOf(r)));
  }

  /** The row recomputed for a group is the very row the executor makes for the key of any of its members. */
  lemma GroupsInLockstep(rt: Runtime, q: AggQuery, names: seq<string>, store: Store, live: Option<RowSet>,
                 groupRows: map<string, RowSet>, rowGroup: map<nat, string>, k: string, r: nat)
    requires Comparable(rt, q, names, store) && Membership(rt, q, names, store, live, groupRows, rowGroup)
    requires k in groupRows && r in groupRows[k]
    requires ClashFree(RowKey(rt, q, store.types, store.rows), MatchesOf(rt, q, store, live))
    ensures var keyOf, rows := RowKey(rt, q, store.types, store.rows), MatchesOf(rt, q, store, live);
            && |keyOf(r)| <= |q.groupBy|
            && OneGroup(rt, q, names, store, groupRows[k]) ==
               GroupRow(rt, q, names, store, keyOf(r), Members(rows, keyOf, keyOf(r)))
  {
    var keyOf := RowKey(rt, q, store.types, store.rows);
    KeyLength(rt, q, store, r);
    GroupIsExecutors(rt, q, names, store, live, groupRows, rowGroup, k, r);
    var first := Ascending(groupRows[k])[0];
    assert first in Ascending(groupRows[k]);
    MembersAre(MatchesOf(rt, q, store, live), keyOf, keyOf(r), first);
  }

  /** Two rows that clash share a bitmap that the executor splits. */
  lemma ClashSharesBitmap(rt: Runtime, q: AggQuery, names: seq<string>, store: Store, live: Option<RowSet>,
                          groupRows: map<string, RowSet>, rowGroup: map<nat, string>, r: nat, s: nat)
    requires Comparable(rt, q, names, store) && Membership(rt, q, names, store, live, groupRows, rowGroup)
    requires var keyOf, rows := RowKey(rt, q, store.types, store.rows), MatchesOf(rt, q, store, live);
             r in rows && s in rows && Merged(keyOf(r), keyOf(s)) && keyOf(r) != keyOf(s)
    ensures var keyOf, rows := RowKey(rt, q, store.types, store.rows), MatchesOf(rt, q, store, live);
            r in rowGroup && rowGroup[r] in groupRows && r in groupRows[rowGroup[r]] &&
            Ascending(groupRows[rowGroup[r]]) != Members(rows, keyOf, keyOf(r))
  {
    var keyOf, rows := RowKey(rt, q, store.types, store.rows), MatchesOf(rt, q, store, live);
    assert r in RowsIn(rows);
    var k := rowGroup[r];
    GroupIsMerged(rt, q, names, store, live, groupRows, rowGroup, k, r, s);
    MembersAre(rows, keyOf, keyOf(r), s);
    assert s in Ascending(groupRows[k]);
  }

  /**
   The bitmaps are the executor's groups if and only if the keys of the live
   matching rows never clash.
   */
  lemma LockstepExact(rt: Runtime, q: AggQuery, names: seq<string>, store: Store, live: Option<RowSet>,
                      groupRows: map<string, RowSet>, rowGroup: map<nat, string>)
    requires Comparable(rt, q, names, store) && Membership(rt, q, names, store, live, groupRows, rowGroup)
    ensures var keyOf, rows := RowKey(rt, q, store.types, store.rows), MatchesOf(rt, q, store, live);
            ClashFree(keyOf, rows) <==>
            forall k, r: nat :: k in groupRows && r in groupRows[k] ==>
              Ascending(groupRows[k]) == Members(rows, keyOf, keyOf(r))
  {
    var keyOf, rows := RowKey(rt, q, store.types, store.rows), MatchesOf(rt, q, store, live);
    if ClashFree(keyOf, rows) {
      forall k, r: nat | k in groupRows && r in groupRows[k]
        ensures Ascending(groupRows[k]) == Members(rows, keyOf, keyOf(r))
      {
        GroupIsExecutors(rt, q, names, store, live, groupRows, rowGroup, k, r);
      }
    } else {
      var r: nat, s: nat :| r in rows && s in rows && Merged(keyOf(r), keyOf(s)) && keyOf(r) != keyOf(s);
      ClashSharesBitmap(rt, q, names, store, live, groupRows, rowGroup, r, s);
    }
  }

  /** Finite double keys never clash. */
  lemma FiniteKeysNeverClash(keyOf: nat -> GroupKey, rows: seq<nat>)
    requires forall r: nat, i :: r in rows && 0 <= i < |keyOf(r)| && keyOf(r)[i].DoublePart? ==>
               IsFinite(keyOf(r)[i].bits)
    ensures ClashFree(keyOf, rows)
  {
    forall r: nat, s: nat | r in rows && s in rows && Merged(keyOf(r), keyOf(s)) ensures keyOf(r) == keyOf(s) {
      forall i | 0 <= i < |keyOf(r)| ensures keyOf(r)[i] == keyOf(s)[i] {
      }
    }
  }

  /** An infinity and a null are two groups for the executor and one for the canonical key. */
  lemma InfinityJoinsNull(rt: Runtime, q: AggQuery, names: seq<string>)
    requires q.groupBy == [0] && AggFits(q, [DoubleType]) && |names| == 1
    ensures var store := Store([DoubleType], [[Double(INFINITY)], [Double(QuietNaN)]]);
            && store.Valid()
            && RowKey(rt, q, store.types, store.rows)(0) != RowKey(rt, q, store.types, store.rows)(1)
            && CanonicalKey(rt, q, names, store)(0) == CanonicalKey(rt, q, names, store)(1)
  {
    var store := Store([DoubleType], [[Double(INFINITY)], [Double(QuietNaN)]]);
    var keyOf := RowKey(rt, q, store.types, store.rows);
    assert RowTyped(store.types, store.rows[0]) && RowTyped(store.types, store.rows[1]);
    assert keyOf(0)[0] == DoublePart(INFINITY) && keyOf(1)[0] == NullPart;
    var groupNames := GroupNames(q, names);
    assert KeyColumns(rt, groupNames, keyOf(0), 1) == map[groupNames[0] := JNull];
    assert KeyColumns(rt, groupNames, keyOf(1), 1) == map[groupNames[0] := JNull];
  }

  // ---- the result keyed by group ----

  /** No aggregate or scalar takes the name of a group column, and no group column has a hidden name. */
  ghost predicate KeysVisible(q: AggQuery, groupNames: seq<string>) {
    forall i :: 0 <= i < |groupNames| ==>
      && !Hidden(groupNames[i])
      && (forall j :: 0 <= j < |q.aggregates| ==> q.aggregates[j].alias != groupNames[i])
      && (forall j :: 0 <= j < |q.postAgg| ==> q.postAgg[j].alias != groupNames[i])
  }

  lemma {:induction false} AggregatesKeep(rt: Runtime, m: RowMap, specs: seq<AggSpec>, states: seq<AggState>, n: nat,
                                          name: string)
    requires n <= |specs| && n <= |states| && forall j :: 0 <= j < |specs| ==> specs[j].alias != name
    ensures var m' := WithAggregates(rt, m, specs, states, n);
            (name in m' <==> name in m) && (name in m ==> m'[name] == m[name])
  {
    if n > 0 { AggregatesKeep(rt, m, specs, states, n - 1, name); }
  }

  lemma {:induction false} ScalarsKeep(m: RowMap, post: seq<PostAgg>, name: string)
    requires forall j :: 0 <= j < |post| ==> post[j].alias != name
    ensures var m' := WithScalars(m, post);
            (name in m' <==> name in m) && (name in m ==> m'[name] == m[name])
  {
    if post != [] { ScalarsKeep(m, post[..|post| - 1], name); }
  }

  /** An emitted row still shows the key of its group. */
  lemma EmittedShowsKey(rt: Runtime, q: AggQuery, groupNames: seq<string>, key: GroupKey, states: seq<AggState>, i: nat)
    requires NamesTell(groupNames, key) && |states| == |q.aggregates| && KeysVisible(q, groupNames) && i < |key|
    ensures var row := PostAggregated(q, RowOf(rt, q, groupNames, key, states));
            groupNames[i] in row && row[groupNames[i]] == PartJson(rt, key[i])
  {
    var m := KeyColumns(rt, groupNames, key, |key|);
    KeyColumnsLookup(rt, groupNames, key, |key|, i);
    AggregatesKeep(rt, m, q.aggregates, states, |states|, groupNames[i]);
    ScalarsKeep(RowOf(rt, q, groupNames, key, states), q.postAgg, groupNames[i]);
  }

  /** So its canonical key is that of the rows behind it. */
  lemma CanonicalOfEmitted(rt: Runtime, q: AggQuery, groupNames: seq<string>, key: GroupKey, states: seq<AggState>)
    requires NamesTell(groupNames, key) && |states| == |q.aggregates| && KeysVisible(q, groupNames)
    ensures CanonicalOf(rt, groupNames, PostAggregated(q, RowOf(rt, q, groupNames, key, states))) ==
            rt.serialize(KeyPairs(rt, groupNames, key))
  {
    var row := PostAggregated(q, RowOf(rt, q, groupNames, key, states));
    forall i | 0 <= i < |key| ensures groupNames[i] in row && row[groupNames[i]] == PartJson(rt, key[i]) {
      EmittedShowsKey(rt, q, groupNames, key, states, i);
    }
    assert seq(|groupNames|, i requires 0 <= i < |groupNames| =>
             (groupNames[i], if groupNames[i] in row then row[groupNames[i]] else JNull)) ==
                 KeyPairs(rt, groupNames, key);
  }

  /** Columns of the same name carry the same part. */
  ghost predicate NamesTell(groupNames: seq<string>, key: GroupKey) {
    |key| == |groupNames| &&
    forall a, b :: 0 <= a < |key| && 0 <= b < |key| && groupNames[a] == groupNames[b] ==> key[a] == key[b]
  }

  lemma KeyNamesTell(rt: Runtime, q: AggQuery, names: seq<string>, store: Store, r: nat)
    requires Comparable(rt, q, names, store) && r < |store.rows|
    ensures NamesTell(GroupNames(q, names), RowKey(rt, q, store.types, store.rows)(r))
  {
    assert RowTyped(store.types, store.rows[r]);
    SameNameSameColumn(q.groupBy, names);
  }

  lemma SameNameSameColumn(cols: seq<nat>, names: seq<string>)
    requires UniqueNames(names) && forall i :: 0 <= i < |cols| ==> cols[i] < |names|
    ensures forall a, b :: 0 <= a < |cols| && 0 <= b < |cols| && names[cols[a]] == names[cols[b]] ==> cols[a] == cols[b]
  {
  }

  lemma GroupRowShowsKey(rt: Runtime, q: AggQuery, names: seq<string>, store: Store, key: GroupKey, members: seq<nat>,
                         row: RowMap)
    requires AggFits(q, store.types) && |names| == |store.types| && KeysVisible(q, GroupNames(q, names))
    requires NamesTell(GroupNames(q, names), key)
    requires GroupRow(rt, q, names, store, key, members) == Some(row)
    ensures CanonicalOf(rt, GroupNames(q, names), row) == rt.serialize(KeyPairs(rt, GroupNames(q, names), key))
  {
    StatesLength(rt, q, store, members);
    CanonicalOfEmitted(rt, q, GroupNames(q, names), key, StatesOver(rt, q, store, members));
  }

  lemma GroupRowCanonical(rt: Runtime, q: AggQuery, names: seq<string>, store: Store, r: nat, members: seq<nat>)
    requires Comparable(rt, q, names, store) && KeysVisible(q, GroupNames(q, names)) && r < |store.rows|
    ensures var key := RowKey(rt, q, store.types, store.rows)(r);
            && |key| <= |q.groupBy|
            && var row := GroupRow(rt, q, names, store, key, members);
               row.Some? ==> CanonicalOf(rt, GroupNames(q, names), row.value) == CanonicalKey(rt, q, names, store)(r)
  {
    CanonicalIsPairs(rt, q, names, store, r);
    KeyNamesTell(rt, q, names, store, r);
    var key := RowKey(rt, q, store.types, store.rows)(r);
    var row := GroupRow(rt, q, names, store, key, members);
    if row.Some? { GroupRowShowsKey(rt, q, names, store, key, members, row.value); }
  }
}
