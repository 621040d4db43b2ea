/**
 PIVOT: one output row per anchor tuple, one cell per pivot value and measure.
 */
module Pivot {
  import opened Wrappers
  import opened Float64
  import opened Orders
  import opened Values
  import opened Predicates
  import opened Bitmaps
  import opened Executor
  import opened Grouping
  import opened Accumulators
  import opened Aggregation

  datatype Literal =
    | LString(s: string)
    | LLong(n: I64)
    | LDouble(bits: F64)
    | LBool(b: bool)
    | LTimestamp(t: I64)

  datatype PivotSpec = PivotSpec(
    predicate_: Predicate,
    anchorCols: seq<nat>,
    pivotCol: nat,
    aggregates: seq<AggSpec>,
    values: seq<Literal>)

  // ---- pivot values ----

  /** The literal a non-null cell stands for; byte strings stand for none. */
  function PivotValue(v: Value): Option<Literal> {
    if v.IsNull() then None
    else
      match v
      case String(s) => Some(LString(s.value))
      case Long(n) => Some(LLong(n))
      case Int(i) => Some(LLong(i))
      case Double(d) => Some(LDouble(d))
      case Bool(b) => Some(LBool(b.value))
      case Timestamp(t) => Some(LTimestamp(t))
      case Bytes(_) => None
  }

  /** What bucketing compares with the list: null integers of 32 bits are widened, not skipped. */
  function Compared(v: Value): Option<Literal> {
    if v.Int? then Some(LLong(v.i)) else PivotValue(v)
  }

  /** The two differ on exactly one value. */
  lemma ComparedExactly(v: Value)
    ensures Compared(v) == PivotValue(v) <==> v != Int(NULL_INT)
    ensures v == Int(NULL_INT) ==> Compared(v) == Some(LLong(NULL_INT)) && PivotValue(v) == None
  {
  }

  function Position(values: seq<Literal>, x: Literal, from: nat): Option<nat>
    requires from <= |values|
    decreases |values| - from
  {
    if from == |values| then None else if values[from] == x then Some(from) else Position(values, x, from + 1)
  }

  /** The index of a row's pivot value in the list. */
  function MatchPivotValue(values: seq<Literal>, v: Value): Option<nat> {
    var x := Compared(v);
    if x.None? then None else Position(values, x.value, 0)
  }

  lemma {:induction false} PositionIsFirst(values: seq<Literal>, x: Literal, from: nat)
    requires from <= |values|
    ensures var p := Position(values, x, from);
            && (p.Some? ==> from <= p.value < |values| && values[p.value] == x)
            && (p.None? ==> x !in values[from..])
    ensures var p := Position(values, x, from); p.Some? ==> x !in values[from..p.value]
    decreases |values| - from
  {
    if from < |values| && values[from] != x {
      PositionIsFirst(values, x, from + 1);
      assert values[from..] == [values[from]] + values[from + 1..];
      var p := Position(values, x, from);
      if p.Some? { assert values[from..p.value] == [values[from]] + values[from + 1..p.value]; }
    }
  }

  /** In a list without repetition, a cell goes to the column of the literal it is compared as. */
  lemma MatchMeaning(values: seq<Literal>, v: Value, j: nat)
    requires Distinct(values) && j < |values|
    ensures MatchPivotValue(values, v) == Some(j) <==> Compared(v) == Some(values[j])
  {
    if Compared(v).Some? { PositionIsFirst(values, Compared(v).value, 0); }
  }

  lemma MatchFails(values: seq<Literal>, v: Value)
    ensures MatchPivotValue(values, v) == None <==> Compared(v).None? || Compared(v).value !in values
  {
    if Compared(v).Some? {
      PositionIsFirst(values, Compared(v).value, 0);
      assert values[0..] == values;
    }
  }

  // ---- buckets ----

  type Bucket = (GroupKey, nat)

  /** The bucket of a row, if its pivot value has a column. */
  function BucketOf(anchorOf: nat -> GroupKey, slotOf: nat -> Option<nat>): nat -> Option<Bucket> {
    (r: nat) => if slotOf(r).Some? then Some((anchorOf(r), slotOf(r).value)) else None
  }

  /** Every row surfaces its anchor; only a row with a column enters a bucket. */
  method FillBuckets<S>(rows: seq<nat>, anchorOf: nat -> GroupKey, slotOf: nat -> Option<nat>, init: S,
                        step: (S, nat) -> S)
    returns (buckets: map<Bucket, S>, order: seq<GroupKey>)
    ensures order == FirstSeen(Keys(rows, anchorOf))
    ensures Indexed(buckets, rows, BucketOf(anchorOf, slotOf), init, step)
  {
    ghost var bucketOf := BucketOf(anchorOf, slotOf);
    buckets, order := map[], [];
    var seen: set<GroupKey> := {};
    for i := 0 to |rows|
      invariant order == FirstSeen(Keys(rows[..i], anchorOf)) && seen == set k | k in order
      invariant Indexed(buckets, rows[..i], bucketOf, init, step)
    {
      var row := rows[i];
      var anchor := anchorOf(row);
      assert rows[..i + 1] == rows[..i] + [row];
      IndexedStep(buckets, rows[..i], bucketOf, init, step, row);
      AnchorStep(rows[..i], anchorOf, row);
      if anchor !in seen {
        seen := seen + {anchor};
        order := order + [anchor];
      }
      var slot := slotOf(row);
      assert bucketOf(row) == if slot.Some? then Some((anchor, slot.value)) else None;
      if slot.Some? {
        buckets := Touch(buckets, (anchor, slot.value), init, step, row);
      }
    }
    assert rows[..|rows|] == rows;
  }

  lemma AnchorStep(rows: seq<nat>, anchorOf: nat -> GroupKey, row: nat)
    ensures var order := FirstSeen(Keys(rows, anchorOf));
            FirstSeen(Keys(rows + [row], anchorOf)) == if anchorOf(row) in order then order else order + [anchorOf(row)]
  {
    assert Keys(rows + [row], anchorOf) == Keys(rows, anchorOf) + [anchorOf(row)];
    FirstSeenSnoc(Keys(rows, anchorOf), anchorOf(row));
    FirstSeenLaws(Keys(rows, anchorOf));
  }

  // ---- one output row ----

  /** Cells of one pivot value: one measure after the other. */
  function WithLine(rt: Runtime, m: RowMap, name: nat -> string, states: seq<AggState>, n: nat): RowMap
    requires n <= |states|
  {
    if n == 0 then m else WithLine(rt, m, name, states, n - 1)[name(n - 1) := Finalize(rt, states[n - 1])]
  }

  function NameAt(name: (nat, nat) -> string, vi: nat): nat -> string { (ai: nat) => name(vi, ai) }

  /** Cells of the first `n` pivot values. */
  function WithCells(rt: Runtime, m: RowMap, name: (nat, nat) -> string, cell: nat -> seq<AggState>, n: nat): RowMap {
    if n == 0 then m
    else WithLine(rt, WithCells(rt, m, name, cell, n - 1), NameAt(name, n - 1), cell(n - 1), |cell(n - 1)|)
  }

  lemma {:induction false} LineKeeps(rt: Runtime, m: RowMap, name: nat -> string, states: seq<AggState>, n: nat,
                                     k: string)
    requires n <= |states| && forall ai: nat :: ai < n ==> name(ai) != k
    ensures var m' := WithLine(rt, m, name, states, n);
            (k in m' <==> k in m) && (k in m ==> m'[k] == m[k])
  {
    if n > 0 { LineKeeps(rt, m, name, states, n - 1, k); }
  }

  lemma {:induction false} LineHolds(rt: Runtime, m: RowMap, name: nat -> string, states: seq<AggState>, n: nat,
                                     ai: nat)
    requires ai < n <= |states| && forall a: nat :: a < n && a != ai ==> name(a) != name(ai)
    ensures var m' := WithLine(rt, m, name, states, n);
            name(ai) in m' && m'[name(ai)] == Finalize(rt, states[ai])
  {
    if ai < n - 1 { LineHolds(rt, m, name, states, n - 1, ai); }
  }

  /** Output columns have names of their own. */
  ghost predicate DistinctLabels(name: (nat, nat) -> string, nv: nat, na: nat, anchorNames: seq<string>) {
    && NamesDiffer(name, nv, na)
    && (forall vi: nat, ai: nat :: vi < nv && ai < na ==> name(vi, ai) !in anchorNames)
  }

  ghost predicate NamesDiffer(name: (nat, nat) -> string, nv: nat, na: nat) {
    forall vi: nat, ai: nat, vi': nat, ai': nat ::
      vi < nv && vi' < nv && ai < na && ai' < na && (vi, ai) != (vi', ai') ==> name(vi, ai) != name(vi', ai')
  }

  lemma {:induction false} CellsKeep(rt: Runtime, m: RowMap, name: (nat, nat) -> string, cell: nat -> seq<AggState>,
                                     n: nat, na: nat, k: string)
    requires (forall vi: nat :: vi < n ==> |cell(vi)| == na) && forall vi: nat, ai: nat :: vi < n && ai < na ==>
               name(vi, ai) != k
    ensures var m' := WithCells(rt, m, name, cell, n);
            (k in m' <==> k in m) && (k in m ==> m'[k] == m[k])
  {
    if n > 0 {
      CellsKeep(rt, m, name, cell, n - 1, na, k);
      LineKeeps(rt, WithCells(rt, m, name, cell, n - 1), NameAt(name, n - 1), cell(n - 1), na, k);
    }
  }

  /** No other cell has the name of cell `(vi, ai)`. */
  ghost predicate OnlyName(name: (nat, nat) -> string, n: nat, na: nat, vi: nat, ai: nat) {
    forall v: nat, a: nat :: v < n && a < na && (v != vi || a != ai) ==> name(v, a) != name(vi, ai)
  }

  lemma {:induction false} CellsHold(rt: Runtime, m: RowMap, name: (nat, nat) -> string, cell: nat -> seq<AggState>,
                                     n: nat,
                                     na: nat, vi: nat, ai: nat)
    requires OnlyName(name, n, na, vi, ai) && vi < n && ai < na
    requires forall v: nat :: v < n ==> |cell(v)| == na
    ensures var m' := WithCells(rt, m, name, cell, n);
            name(vi, ai) in m' && m'[name(vi, ai)] == Finalize(rt, cell(vi)[ai])
  {
    var front := WithCells(rt, m, name, cell, n - 1);
    if vi < n - 1 {
      CellsHold(rt, m, name, cell, n - 1, na, vi, ai);
      LineKeeps(rt, front, NameAt(name, n - 1), cell(n - 1), na, name(vi, ai));
    } else {
      LineHolds(rt, front, NameAt(name, vi), cell(vi), na, ai);
    }
  }

  // ---- the executor on a fixed list of values ----

  predicate PivotFits(spec: PivotSpec, types: seq<ColumnType>) {
    && Fits(spec.predicate_, types)
    && spec.pivotCol < |types|
    && (forall i :: 0 <= i < |spec.anchorCols| ==> spec.anchorCols[i] < |types|)
    && (forall i :: 0 <= i < |spec.aggregates| ==> spec.aggregates[i].col.Some? ==>
        spec.aggregates[i].col.value < |types|)
  }

  /** Anchors group as GROUP BY does, and measures read a column or nothing: expressions are not consulted. */
  function AsAggregate(spec: PivotSpec): AggQuery {
    AggQuery(spec.predicate_, spec.anchorCols,
             seq(|spec.aggregates|, i requires 0 <= i < |spec.aggregates| => spec.aggregates[i].(expr := None)),
             None, [], [], None)
  }

  lemma AsAggregateFits(spec: PivotSpec, types: seq<ColumnType>)
    requires PivotFits(spec, types)
    ensures AggFits(AsAggregate(spec), types)
  {
  }

  function CellAt(spec: PivotSpec, rows: seq<Row>, r: nat): Value {
    if r < |rows| && spec.pivotCol < |rows[r]| then rows[r][spec.pivotCol] else Null
  }

  function SlotOf(spec: PivotSpec, rows: seq<Row>): nat -> Option<nat> {
    (r: nat) => MatchPivotValue(spec.values, CellAt(spec, rows, r))
  }

  function AnchorOf(rt: Runtime, spec: PivotSpec, types: seq<ColumnType>, rows: seq<Row>): nat -> GroupKey
    requires PivotFits(spec, types)
  {
    AsAggregateFits(spec, types);
    RowKey(rt, AsAggregate(spec), types, rows)
  }

  /** The title of the literal, with the measure's alias when there are several measures. */
  function OutputName(spec: PivotSpec, title: Literal -> string): (nat, nat) -> string {
    (vi: nat, ai: nat) =>
      if vi < |spec.values| && ai < |spec.aggregates| then
        if |spec.aggregates| == 1 then title(spec.values[vi])
        else title(spec.values[vi]) + "_" + spec.aggregates[ai].alias
      else ""
  }

  /** The states of a cell: the fold over the rows of its bucket. */
  ghost function CellStates(rt: Runtime, spec: PivotSpec, store: Store, rows: seq<nat>,
                            anchor: GroupKey): nat -> seq<AggState>
    requires PivotFits(spec, store.types)
  {
    AsAggregateFits(spec, store.types);
    var bucketOf := BucketOf(AnchorOf(rt, spec, store.types, store.rows), SlotOf(spec, store.rows));
    (vi: nat) => StatesOver(rt, AsAggregate(spec), store, Members(rows, bucketOf, Some((anchor, vi))))
  }

  function AnchorNames(spec: PivotSpec, names: seq<string>): seq<string>
    requires forall i :: 0 <= i < |spec.anchorCols| ==> spec.anchorCols[i] < |names|
  {
    seq(|spec.anchorCols|, i requires 0 <= i < |spec.anchorCols| => names[spec.anchorCols[i]])
  }

  ghost function PivotRow(rt: Runtime, spec: PivotSpec, names: seq<string>, store: Store, title: Literal -> string,
                          rows: seq<nat>, anchor: GroupKey): RowMap
    requires PivotFits(spec, store.types) && |names| == |store.types| && |anchor| <= |spec.anchorCols|
  {
    WithCells(rt, KeyColumns(rt, AnchorNames(spec, names), anchor, |anchor|), OutputName(spec, title),
              CellStates(rt, spec, store, rows, anchor), |spec.values|)
  }

  method BuildLine(rt: Runtime, m: RowMap, name: (nat, nat) -> string, vi: nat, states: seq<AggState>)
    returns (r: RowMap)
    ensures r == WithLine(rt, m, NameAt(name, vi), states, |states|)
  {
    r := m;
    for ai := 0 to |states|
      invariant r == WithLine(rt, m, NameAt(name, vi), states, ai)
    {
      r := r[name(vi, ai) := Finalize(rt, states[ai])];
    }
  }

  /** Anchor columns, then one column per value and measure; a missing bucket shows the initial states. */
  method BuildPivotRow(rt: Runtime, anchorNames: seq<string>, anchor: GroupKey, name: (nat, nat) -> string, nv: nat,
                       buckets: map<Bucket, seq<AggState>>, init: seq<AggState>, ghost cell: nat -> seq<AggState>)
    returns (m: RowMap)
    requires |anchor| <= |anchorNames|
    requires forall vi: nat :: vi < nv ==> cell(vi) == if (anchor, vi) in buckets then buckets[(anchor, vi)] else init
    ensures m == WithCells(rt, KeyColumns(rt, anchorNames, anchor, |anchor|), name, cell, nv)
  {
    m := map[];
    for i := 0 to |anchor|
      invariant m == KeyColumns(rt, anchorNames, anchor, i)
    {
      m := m[anchorNames[i] := PartJson(rt, anchor[i])];
    }
    ghost var columns := m;
    for vi := 0 to nv
      invariant m == WithCells(rt, columns, name, cell, vi)
    {
      var states := if (anchor, vi) in buckets then buckets[(anchor, vi)] else init;
      m := BuildLine(rt, m, name, vi, states);
    }
  }

  /** One row per anchor of the matching rows, in order of first appearance. */
  method ExecutePivot(rt: Runtime, spec: PivotSpec, names: seq<string>, store: Store, title: Literal -> string)
    returns (out: seq<RowMap>)
    requires store.Valid() && PivotFits(spec, store.types) && |names| == |store.types|
    ensures var rows := Scan(rt.lib, spec.predicate_, store, |store.rows|);
            var order := FirstSeen(Keys(rows, AnchorOf(rt, spec, store.types, store.rows)));
            && |out| == |order|
            && forall i :: 0 <= i < |order| ==>
                 |order[i]| <= |spec.anchorCols| && out[i] == PivotRow(rt, spec, names, store, title, rows, order[i])
  {
    var rows := MatchingRows(rt.lib, spec.predicate_, store, None);
    out := PivotRows(rt, spec, names, store, title, rows);
  }

  lemma BucketIsCell(rt: Runtime, spec: PivotSpec, store: Store, rows: seq<nat>, buckets: map<Bucket, seq<AggState>>,
                     anchor: GroupKey, vi: nat)
    requires PivotFits(spec, store.types) && AggFits(AsAggregate(spec), store.types)
    requires Indexed(buckets, rows, BucketOf(AnchorOf(rt, spec, store.types, store.rows), SlotOf(spec, store.rows)),
                      InitStates(AsAggregate(spec), store.types),
                      StepOf(rt, AsAggregate(spec), store.types, store.rows))
    ensures CellStates(rt, spec, store, rows, anchor)(vi) ==
            if (anchor, vi) in buckets then buckets[(anchor, vi)] else InitStates(AsAggregate(spec), store.types)
  {
    var b: Bucket := (anchor, vi);
    var init, step := InitStates(AsAggregate(spec), store.types),
        StepOf(rt, AsAggregate(spec), store.types, store.rows);
    var bucketOf := BucketOf(AnchorOf(rt, spec, store.types, store.rows), SlotOf(spec, store.rows));
    assert (if b in buckets then buckets[b] else init) == Fold(init, step, Members(rows, bucketOf, Some(b)));
  }

  /** Every cell is a bucket, or the initial states where there is none. */
  ghost predicate CellsFrom(cellOf: GroupKey -> nat -> seq<AggState>, buckets: map<Bucket, seq<AggState>>,
                            init: seq<AggState>)
  {
    forall a: GroupKey, vi: nat :: cellOf(a)(vi) == if (a, vi) in buckets then buckets[(a, vi)] else init
  }

  method EmitAnchors(rt: Runtime, anchorNames: seq<string>, order: seq<GroupKey>, name: (nat, nat) -> string, nv: nat,
                     buckets: map<Bucket, seq<AggState>>, init: seq<AggState>,
                     ghost cellOf: GroupKey -> nat -> seq<AggState>)
    returns (out: seq<RowMap>)
    requires CellsFrom(cellOf, buckets, init) && forall i :: 0 <= i < |order| ==> |order[i]| <= |anchorNames|
    ensures |out| == |order|
    ensures forall i :: 0 <= i < |order| ==>
              out[i] == WithCells(rt, KeyColumns(rt, anchorNames, order[i], |order[i]|), name, cellOf(order[i]), nv)
  {
    out := [];
    for i := 0 to |order|
      invariant |out| == i
      invariant forall j :: 0 <= j < i ==>
                  out[j] == WithCells(rt, KeyColumns(rt, anchorNames, order[j], |order[j]|), name, cellOf(order[j]), nv)
    {
      var row := BuildPivotRow(rt, anchorNames, order[i], name, nv, buckets, init, cellOf(order[i]));
      out := out + [row];
    }
  }

  method PivotRows(rt: Runtime, spec: PivotSpec, names: seq<string>, store: Store, title: Literal -> string,
                   rows: seq<nat>)
    returns (out: seq<RowMap>)
    requires PivotFits(spec, store.types) && |names| == |store.types|
    ensures var order := FirstSeen(Keys(rows, AnchorOf(rt, spec, store.types, store.rows)));
            && |out| == |order|
            && forall i :: 0 <= i < |order| ==>
                 |order[i]| <= |spec.anchorCols| && out[i] == PivotRow(rt, spec, names, store, title, rows, order[i])
  {
    AsAggregateFits(spec, store.types);
    var q := AsAggregate(spec);
    var init := InitStates(q, store.types);
    var buckets, order := FillBuckets(rows, AnchorOf(rt, spec, store.types, store.rows), SlotOf(spec, store.rows), init,
                                      StepOf(rt, q, store.types, store.rows));
    OrderLengths(rt, q, store, rows);
    ghost var cellOf := (a: GroupKey) => CellStates(rt, spec, store, rows, a);
    forall a: GroupKey, vi: nat ensures cellOf(a)(vi) == if (a, vi) in buckets then buckets[(a, vi)] else init {
      BucketIsCell(rt, spec, store, rows, buckets, a, vi);
    }
    out := EmitAnchors(rt, AnchorNames(spec, names), order, OutputName(spec, title), |spec.values|, buckets, init,
                       cellOf);
  }

  // ---- what a cell holds ----

  /** The anchor of a row with the value it pivots on. */
  ghost function PlaceOf(rt: Runtime, spec: PivotSpec, store: Store): nat -> (GroupKey, Option<Literal>)
    requires PivotFits(spec, store.types)
  {
    var anchorOf := AnchorOf(rt, spec, store.types, store.rows);
    (r: nat) => (anchorOf(r), PivotValue(CellAt(spec, store.rows, r)))
  }

  /** A null 32-bit integer among the rows of the anchor, and a column for the sentinel that stands for it. */
  ghost predicate NullTakenForValue(rt: Runtime, spec: PivotSpec, store: Store, rows: seq<nat>, anchor: GroupKey,
                                    vi: nat)
    requires PivotFits(spec, store.types) && vi < |spec.values|
  {
    spec.values[vi] == LLong(NULL_INT) &&
    exists r: nat :: r in rows && AnchorOf(rt, spec, store.types, store.rows)(r) == anchor &&
      CellAt(spec, store.rows, r) == Int(NULL_INT)
  }

  lemma BucketMembers(rt: Runtime, spec: PivotSpec, store: Store, rows: seq<nat>, anchor: GroupKey, vi: nat, r: nat)
    requires PivotFits(spec, store.types) && vi < |spec.values| && Distinct(spec.values)
    ensures var anchorOf := AnchorOf(rt, spec, store.types, store.rows);
            && (r in Members(rows, BucketOf(anchorOf, SlotOf(spec, store.rows)), Some((anchor, vi))) <==>
                r in rows && anchorOf(r) == anchor && Compared(CellAt(spec, store.rows, r)) == Some(spec.values[vi]))
            && (r in Members(rows, PlaceOf(rt, spec, store), (anchor, Some(spec.values[vi]))) <==>
                r in rows && anchorOf(r) == anchor && PivotValue(CellAt(spec, store.rows, r)) == Some(spec.values[vi]))
  {
    var anchorOf := AnchorOf(rt, spec, store.types, store.rows);
    MembersAre(rows, BucketOf(anchorOf, SlotOf(spec, store.rows)), Some((anchor, vi)), r);
    MembersAre(rows, PlaceOf(rt, spec, store), (anchor, Some(spec.values[vi])), r);
    MatchMeaning(spec.values, CellAt(spec, store.rows, r), vi);
  }

  /**
   A cell folds exactly the matching rows with its anchor and pivot value, if and
   only if no null of a 32-bit column is taken for the value of its column.
   */
  lemma CellRowsExact(rt: Runtime, spec: PivotSpec, store: Store, rows: seq<nat>, anchor: GroupKey, vi: nat)
    requires PivotFits(spec, store.types) && vi < |spec.values| && Distinct(spec.values) && StrictlyUp(rows)
    ensures Members(rows, BucketOf(AnchorOf(rt, spec, store.types, store.rows), SlotOf(spec, store.rows)),
                    Some((anchor, vi))) ==
            Members(rows, PlaceOf(rt, spec, store), (anchor, Some(spec.values[vi])))
            <==> !NullTakenForValue(rt, spec, store, rows, anchor, vi)
  {
    var anchorOf := AnchorOf(rt, spec, store.types, store.rows);
    var bucketOf, placeOf := BucketOf(anchorOf, SlotOf(spec, store.rows)), PlaceOf(rt, spec, store);
    var got, wanted := Members(rows, bucketOf, Some((anchor, vi))),
        Members(rows, placeOf, (anchor, Some(spec.values[vi])));
    if NullTakenForValue(rt, spec, store, rows, anchor, vi) {
      var r: nat :| r in rows && anchorOf(r) == anchor && CellAt(spec, store.rows, r) == Int(NULL_INT);
      BucketMembers(rt, spec, store, rows, anchor, vi, r);
      assert r in got && r !in wanted;
    } else {
      MembersAscend(rows, bucketOf, Some((anchor, vi)));
      MembersAscend(rows, placeOf, (anchor, Some(spec.values[vi])));
      forall r: nat ensures r in got <==> r in wanted {
        BucketMembers(rt, spec, store, rows, anchor, vi, r);
        ComparedExactly(CellAt(spec, store.rows, r));
      }
      AscendingUnique(got, wanted);
    }
  }

  /** Each output cell is its measure folded over its rows, and each anchor column its part. */
  lemma PivotCell(rt: Runtime, spec: PivotSpec, names: seq<string>, store: Store, title: Literal -> string,
                  rows: seq<nat>, anchor: GroupKey, vi: nat, ai: nat)
    requires PivotFits(spec, store.types) && |names| == |store.types| && |anchor| <= |spec.anchorCols|
    requires vi < |spec.values| && ai < |spec.aggregates| && Distinct(spec.values) && StrictlyUp(rows)
    requires DistinctLabels(OutputName(spec, title), |spec.values|, |spec.aggregates|, AnchorNames(spec, names))
    requires !NullTakenForValue(rt, spec, store, rows, anchor, vi)
    requires AggFits(AsAggregate(spec), store.types)
    ensures var row := PivotRow(rt, spec, names, store, title, rows, anchor);
            var name := OutputName(spec, title)(vi, ai);
            var states :=
                StatesOver(rt, AsAggregate(spec), store,
                           Members(rows, PlaceOf(rt, spec, store), (anchor, Some(spec.values[vi]))));
            && |states| == |spec.aggregates|
            && name in row && row[name] == Finalize(rt, states[ai])
  {
    CellRowsExact(rt, spec, store, rows, anchor, vi);
    var cell := CellStates(rt, spec, store, rows, anchor);
    forall v: nat ensures |cell(v)| == |spec.aggregates| { CellLength(rt, spec, store, rows, anchor, v); }
    CellsHold(rt, KeyColumns(rt, AnchorNames(spec, names), anchor, |anchor|), OutputName(spec, title), cell,
              |spec.values|, |spec.aggregates|, vi, ai);
  }

  lemma CellLength(rt: Runtime, spec: PivotSpec, store: Store, rows: seq<nat>, anchor: GroupKey, vi: nat)
    requires PivotFits(spec, store.types)
    ensures |CellStates(rt, spec, store, rows, anchor)(vi)| == |spec.aggregates|
  {
    AsAggregateFits(spec, store.types);
    var bucketOf := BucketOf(AnchorOf(rt, spec, store.types, store.rows), SlotOf(spec, store.rows));
    StatesLength(rt, AsAggregate(spec), store, Members(rows, bucketOf, Some((anchor, vi))));
  }

  lemma AnchorColumn(rt: Runtime, spec: PivotSpec, names: seq<string>, store: Store, title: Literal -> string,
                     rows: seq<nat>, anchor: GroupKey, i: nat)
    requires PivotFits(spec, store.types) && |names| == |store.types| && NamesTell(AnchorNames(spec, names), anchor)
    requires DistinctLabels(OutputName(spec, title), |spec.values|, |spec.aggregates|, AnchorNames(spec, names))
    requires i < |anchor|
    ensures var row := PivotRow(rt, spec, names, store, title, rows, anchor);
            AnchorNames(spec, names)[i] in row && row[AnchorNames(spec, names)[i]] == PartJson(rt, anchor[i])
  {
    var anchorNames, cell := AnchorNames(spec, names), CellStates(rt, spec, store, rows, anchor);
    forall v: nat ensures |cell(v)| == |spec.aggregates| { CellLength(rt, spec, store, rows, anchor, v); }
    KeyColumnsLookup(rt, anchorNames, anchor, |anchor|, i);
    CellsKeep(rt, KeyColumns(rt, anchorNames, anchor, |anchor|), OutputName(spec, title), cell,
              |spec.values|, |spec.aggregates|, anchorNames[i]);
  }

  /** A single null in a 32-bit column is counted under the literal -2147483648. */
  lemma NullCountsAsSentinel(v: Value)
    requires v == Int(NULL_INT)
    ensures v.IsNull() && MatchPivotValue([LLong(-2147483648)], v) == Some(0)
  {
    MatchMeaning([LLong(NULL_INT)], v, 0);
  }

  // ---- dynamic pivots ----

  /** Doubles by value; equal values by pattern. */
  predicate DoubleLe(a: F64, b: F64) {
    if IsNaN(a) || IsNaN(b) then IsNaN(b) && (IsNaN(a) ==> a <= b)
    else Float64.Less(Denote(a), Denote(b)) || (Denote(a) == Denote(b) && a <= b)
  }

  function Rank(x: Literal): nat {
    match x case LString(_) => 0 case LLong(_) => 1 case LDouble(_) => 2 case LBool(_) => 3 case LTimestamp(_) => 4
  }

  /** The natural order of the literals of one column. */
  predicate LiteralLe(a: Literal, b: Literal) {
    if Rank(a) != Rank(b) then Rank(a) < Rank(b)
    else
      match a
      case LString(s) => StringLe(s, b.s)
      case LLong(n) => n <= b.n
      case LDouble(d) => DoubleLe(d, b.bits)
      case LBool(x) => x ==> b.b
      case LTimestamp(t) => t <= b.t
  }

  lemma LiteralLeIsTotalOrder()
    ensures Orders.TotalOrder(LiteralLe)
  {
    StringLeIsTotalOrder();
    forall x, y ensures (LiteralLe(x, y) || LiteralLe(y, x)) && (LiteralLe(x, y) && LiteralLe(y, x) ==> x == y) {
      if x.LString? && y.LString? { assert StringLe(x.s, y.s) || StringLe(y.s, x.s); }
    }
    forall x, y, z | LiteralLe(x, y) && LiteralLe(y, z) ensures LiteralLe(x, z) {
    }
  }

  /** Every non-null pivot value of the rows, once, in order. */
  ghost predicate Discovered(spec: PivotSpec, store: Store, rows: seq<nat>, values: seq<Literal>) {
    && StrictlyAscending(LiteralLe, values)
    && forall x :: x in values <==> exists r: nat :: r in rows && PivotValue(CellAt(spec, store.rows, r)) == Some(x)
  }

  method CollectValues(spec: PivotSpec, store: Store, rows: seq<nat>) returns (all: seq<Literal>)
    ensures forall x :: x in all <==> exists r: nat :: r in rows && PivotValue(CellAt(spec, store.rows, r)) == Some(x)
  {
    all := [];
    for i := 0 to |rows|
      invariant forall x :: x in all <==>
                  exists r: nat :: r in rows[..i] && PivotValue(CellAt(spec, store.rows, r)) == Some(x)
    {
      var v := PivotValue(CellAt(spec, store.rows, rows[i]));
      assert forall r: nat :: r in rows[..i + 1] <==> r in rows[..i] || r == rows[i];
      if v.Some? { all := all + [v.value]; }
    }
    assert rows[..|rows|] == rows;
  }

  method DiscoverValues(spec: PivotSpec, store: Store, rows: seq<nat>) returns (values: seq<Literal>)
    ensures Discovered(spec, store, rows, values)
  {
    var all := CollectValues(spec, store, rows);
    LiteralLeIsTotalOrder();
    values := SortDedup(all, LiteralLe);
  }

  /** The values are discovered on the matching rows; none at all means no output. */
  method ExecuteDynamicPivot(rt: Runtime, spec: PivotSpec, names: seq<string>, store: Store, title: Literal -> string)
    returns (values: seq<Literal>, out: seq<RowMap>)
    requires store.Valid() && PivotFits(spec, store.types) && |names| == |store.types|
    ensures var rows := Scan(rt.lib, spec.predicate_, store, |store.rows|);
            var effective := spec.(values := values);
            var order := FirstSeen(Keys(rows, AnchorOf(rt, effective, store.types, store.rows)));
            && Discovered(spec, store, rows, values)
            && (values == [] ==> out == [])
            && (values != [] ==>
                && |out| == |order|
                && forall i :: 0 <= i < |order| ==>
                     |order[i]| <= |spec.anchorCols|
                       && out[i] == PivotRow(rt, effective, names, store, title, rows, order[i]))
  {
    var rows := MatchingRows(rt.lib, spec.predicate_, store, None);
    values := DiscoverValues(spec, store, rows);
    if values == [] {
      out := [];
    } else {
      out := ExecutePivot(rt, spec.(values := values), names, store, title);
    }
  }

  // ---- conservation ----

  ghost function TotalOver<K(!new)>(keys: seq<K>, count: K -> nat): nat {
    if keys == [] then 0 else TotalOver(keys[..|keys| - 1], count) + count(keys[|keys| - 1])
  }

  lemma {:induction false} TotalBump<K(!new)>(keys: seq<K>, count: K -> nat, count': K -> nat, key: K)
    requires Distinct(keys) && forall k :: k in keys ==> count'(k) == count(k) + if k == key then 1 else 0
    ensures TotalOver(keys, count') == TotalOver(keys, count) + if key in keys then 1 else 0
  {
    if keys != [] {
      var front, last := keys[..|keys| - 1], keys[|keys| - 1];
      assert last in keys && forall k :: k in front ==> k in keys;
      TotalBump(front, count, count', key);
      assert key in keys <==> key in front || key == last;
    }
  }

  ghost function CountOver<K(!new)>(rows: seq<nat>, keyOf: nat -> K): K -> nat {
    (k: K) => |Members(rows, keyOf, k)|
  }

  lemma {:induction false} TotalNone<K(!new)>(keys: seq<K>, count: K -> nat)
    requires forall k :: k in keys ==> count(k) == 0
    ensures TotalOver(keys, count) == 0
  {
    if keys != [] { TotalNone(keys[..|keys| - 1], count); }
  }

  /** Counting the rows of each key counts each row whose key is listed, once. */
  lemma {:induction false} TotalMembers<K(!new)>(keys: seq<K>, rows: seq<nat>, keyOf: nat -> K)
    requires Distinct(keys)
    ensures TotalOver(keys, CountOver(rows, keyOf)) == |Members(rows, (r: nat) => keyOf(r) in keys, true)|
  {
    var listed := (r: nat) => keyOf(r) in keys;
    if rows == [] {
      TotalNone(keys, CountOver(rows, keyOf));
    } else {
      var front, last := rows[..|rows| - 1], rows[|rows| - 1];
      TotalMembers(keys, front, keyOf);
      assert front + [last] == rows;
      MembersSnoc(front, listed, last, true);
      forall k | k in keys
        ensures CountOver(rows, keyOf)(k) == CountOver(front, keyOf)(k) + if k == keyOf(last) then 1 else 0
      {
        MembersSnoc(front, keyOf, last, k);
      }
      TotalBump(keys, CountOver(front, keyOf), CountOver(rows, keyOf), keyOf(last));
    }
  }

  /** The cells of one output row, and of all of them. */
  ghost function Line(anchor: GroupKey, n: nat): seq<Option<Bucket>> { seq(n, j => Some((anchor, j))) }

  ghost function Grid(order: seq<GroupKey>, n: nat): seq<Option<Bucket>> {
    if order == [] then [] else Grid(order[..|order| - 1], n) + Line(order[|order| - 1], n)
  }

  lemma {:induction false} GridAre(order: seq<GroupKey>, n: nat, b: Option<Bucket>)
    ensures b in Grid(order, n) <==> b.Some? && b.value.0 in order && b.value.1 < n
  {
    if order != [] {
      var front, last := order[..|order| - 1], order[|order| - 1];
      GridAre(front, n, b);
      assert order == front + [last];
      assert b in Line(last, n) <==> b.Some? && b.value.0 == last && b.value.1 < n by {
        if b.Some? && b.value.0 == last && b.value.1 < n { assert Line(last, n)[b.value.1] == b; }
      }
    }
  }

  lemma {:induction false} GridDistinct(order: seq<GroupKey>, n: nat)
    requires Distinct(order)
    ensures Distinct(Grid(order, n))
  {
    if order != [] {
      var front, last := order[..|order| - 1], order[|order| - 1];
      GridDistinct(front, n);
      var g, l := Grid(front, n), Line(last, n);
      forall i, j | 0 <= i < |g| && 0 <= j < |l| ensures g[i] != l[j] {
        assert g[i] in g;
        GridAre(front, n, g[i]);
      }
    }
  }

  ghost function HasPivotValue(spec: PivotSpec, store: Store): nat -> bool {
    (r: nat) => PivotValue(CellAt(spec, store.rows, r)).Some?
  }

  lemma SentinelNotDiscovered(spec: PivotSpec, store: Store, rows: seq<nat>, r: nat)
    requires Discovered(spec, store, rows, spec.values) && store.Valid() && spec.pivotCol < |store.types|
    requires (forall r: nat :: r in rows ==> r < |store.rows|) && r in rows
             && CellAt(spec, store.rows, r) == Int(NULL_INT)
    ensures LLong(NULL_INT) !in spec.values
  {
    assert RowTyped(store.types, store.rows[r]);
    forall s: nat | s in rows ensures PivotValue(CellAt(spec, store.rows, s)) != Some(LLong(NULL_INT)) {
      assert RowTyped(store.types, store.rows[s]);
    }
  }

  /** On discovered values, a row has a column exactly when its pivot value is not null. */
  lemma DiscoveredSlot(spec: PivotSpec, store: Store, rows: seq<nat>, r: nat)
    requires Discovered(spec, store, rows, spec.values) && store.Valid() && spec.pivotCol < |store.types|
    requires (forall r: nat :: r in rows ==> r < |store.rows|) && r in rows
    ensures SlotOf(spec, store.rows)(r).Some? <==> HasPivotValue(spec, store)(r)
    ensures SlotOf(spec, store.rows)(r).Some? ==> SlotOf(spec, store.rows)(r).value < |spec.values|
  {
    var v := CellAt(spec, store.rows, r);
    MatchFails(spec.values, v);
    ComparedExactly(v);
    if Compared(v).Some? { PositionIsFirst(spec.values, Compared(v).value, 0); }
    if v == Int(NULL_INT) { SentinelNotDiscovered(spec, store, rows, r); }
  }

  /** The buckets of a dynamic pivot hold each matching row with a non-null pivot value once. */
  lemma DynamicBucketsConserve(rt: Runtime, spec: PivotSpec, store: Store, rows: seq<nat>)
    requires PivotFits(spec, store.types) && store.Valid() && Discovered(spec, store, rows, spec.values)
    requires forall r: nat :: r in rows ==> r < |store.rows|
    ensures var anchorOf := AnchorOf(rt, spec, store.types, store.rows);
            TotalOver(Grid(FirstSeen(Keys(rows, anchorOf)), |spec.values|),
                      CountOver(rows, BucketOf(anchorOf, SlotOf(spec, store.rows)))) ==
            |Members(rows, HasPivotValue(spec, store), true)|
  {
    var anchorOf := AnchorOf(rt, spec, store.types, store.rows);
    var bucketOf, keys := BucketOf(anchorOf, SlotOf(spec, store.rows)), Keys(rows, anchorOf);
    var order := FirstSeen(keys);
    var grid := Grid(order, |spec.values|);
    FirstSeenLaws(keys);
    GridDistinct(order, |spec.values|);
    TotalMembers(grid, rows, bucketOf);
    forall r: nat | r in rows ensures (bucketOf(r) in grid) == HasPivotValue(spec, store)(r) {
      DiscoveredSlot(spec, store, rows, r);
      GridAre(order, |spec.values|, bucketOf(r));
      var j :| 0 <= j < |rows| && rows[j] == r;
      assert keys[j] == anchorOf(r);
    }
    SameMembers(rows, (r: nat) => bucketOf(r) in grid, true, HasPivotValue(spec, store), true);
  }

  ghost predicate IsCountStar(spec: AggSpec) { spec.fn == Count && spec.col.None? }

  /** COUNT(*) over rows of the table counts them. */
  lemma {:induction false} CountStarStates(rt: Runtime, spec: PivotSpec, store: Store, members: seq<nat>, ai: nat)
    requires AggFits(AsAggregate(spec), store.types) && store.Valid()
    requires ai < |spec.aggregates| && IsCountStar(spec.aggregates[ai])
    requires forall i :: 0 <= i < |members| ==> members[i] < |store.rows|
    ensures var states := StatesOver(rt, AsAggregate(spec), store, members);
            |states| == |spec.aggregates| && states[ai] == CountOf(|members|)
  {
    StatesLength(rt, AsAggregate(spec), store, members);
    if members != [] {
      var front, last := members[..|members| - 1], members[|members| - 1];
      CountStarStates(rt, spec, store, front, ai);
      assert RowTyped(store.types, store.rows[last]);
    }
  }

  lemma BucketInside(rows: seq<nat>, bucketOf: nat -> Option<Bucket>, b: Option<Bucket>, bound: nat)
    requires forall r: nat :: r in rows ==> r < bound
    ensures forall i :: 0 <= i < |Members(rows, bucketOf, b)| ==> Members(rows, bucketOf, b)[i] < bound
  {
    var m := Members(rows, bucketOf, b);
    forall i | 0 <= i < |m| ensures m[i] < bound {
      assert m[i] in m;
      MembersAre(rows, bucketOf, b, m[i]);
    }
  }

  /** The number a COUNT(*) cell shows is the number of rows of its bucket. */
  lemma CountCell(rt: Runtime, spec: PivotSpec, names: seq<string>, store: Store, title: Literal -> string,
                  rows: seq<nat>, anchor: GroupKey, vi: nat, ai: nat)
    requires PivotFits(spec, store.types) && store.Valid() && |names| == |store.types| && |anchor| <= |spec.anchorCols|
    requires vi < |spec.values| && ai < |spec.aggregates| && IsCountStar(spec.aggregates[ai])
    requires DistinctLabels(OutputName(spec, title), |spec.values|, |spec.aggregates|, AnchorNames(spec, names))
    requires forall r: nat :: r in rows ==> r < |store.rows|
    ensures var row := PivotRow(rt, spec, names, store, title, rows, anchor);
            var name := OutputName(spec, title)(vi, ai);
            var bucketOf := BucketOf(AnchorOf(rt, spec, store.types, store.rows), SlotOf(spec, store.rows));
            name in row && row[name] == JInt(|Members(rows, bucketOf, Some((anchor, vi)))|)
  {
    AsAggregateFits(spec, store.types);
    var bucketOf := BucketOf(AnchorOf(rt, spec, store.types, store.rows), SlotOf(spec, store.rows));
    BucketInside(rows, bucketOf, Some((anchor, vi)), |store.rows|);
    CountStarStates(rt, spec, store, Members(rows, bucketOf, Some((anchor, vi))), ai);
    var cell := CellStates(rt, spec, store, rows, anchor);
    forall v: nat ensures |cell(v)| == |spec.aggregates| { CellLength(rt, spec, store, rows, anchor, v); }
    CellsHold(rt, KeyColumns(rt, AnchorNames(spec, names), anchor, |anchor|), OutputName(spec, title), cell,
              |spec.values|, |spec.aggregates|, vi, ai);
  }

  function Counted(j: Json): nat { if j.JInt? && j.i >= 0 then j.i else 0 }

  /** What a cell of measure `ai` shows, as a count. */
  ghost function CountAt(rt: Runtime, spec: PivotSpec, names: seq<string>, store: Store, title: Literal -> string,
                         rows: seq<nat>, ai: nat, b: Option<Bucket>): nat
    requires PivotFits(spec, store.types) && |names| == |store.types|
  {
    if b.Some? && |b.value.0| <= |spec.anchorCols| then
      var row, name := PivotRow(rt, spec, names, store, title, rows, b.value.0), OutputName(spec, title)(b.value.1, ai);
      if name in row then Counted(row[name]) else 0
    else 0
  }

  ghost function CellCount(rt: Runtime, spec: PivotSpec, names: seq<string>, store: Store, title: Literal -> string,
                           rows: seq<nat>, ai: nat): Option<Bucket> -> nat
    requires PivotFits(spec, store.types) && |names| == |store.types|
  {
    (b: Option<Bucket>) => CountAt(rt, spec, names, store, title, rows, ai, b)
  }

  lemma {:induction false} TotalCongruent<K(!new)>(keys: seq<K>, f: K -> nat, g: K -> nat)
    requires forall k :: k in keys ==> f(k) == g(k)
    ensures TotalOver(keys, f) == TotalOver(keys, g)
  {
    if keys != [] { TotalCongruent(keys[..|keys| - 1], f, g); }
  }

  /**
   The COUNT(*) cells of a dynamic pivot add up to the number of matching rows
   whose pivot value is not null.
   */
  lemma DynamicCountsConserve(rt: Runtime, spec: PivotSpec, names: seq<string>, store: Store,
                              title: Literal -> string, ai: nat)
    requires PivotFits(spec, store.types) && store.Valid() && |names| == |store.types|
    requires ai < |spec.aggregates| && IsCountStar(spec.aggregates[ai])
    requires DistinctLabels(OutputName(spec, title), |spec.values|, |spec.aggregates|, AnchorNames(spec, names))
    requires Discovered(spec, store, Scan(rt.lib, spec.predicate_, store, |store.rows|), spec.values)
    ensures var rows := Scan(rt.lib, spec.predicate_, store, |store.rows|);
            TotalOver(Grid(FirstSeen(Keys(rows, AnchorOf(rt, spec, store.types, store.rows))), |spec.values|),
                      CellCount(rt, spec, names, store, title, rows, ai)) ==
            |Members(rows, HasPivotValue(spec, store), true)|
  {
    var rows := Scan(rt.lib, spec.predicate_, store, |store.rows|);
    ScanIsExact(rt.lib, spec.predicate_, store, |store.rows|);
    DynamicBucketsConserve(rt, spec, store, rows);
    CellsCountBuckets(rt, spec, names, store, title, rows, ai);
  }

  lemma CellsCountBuckets(rt: Runtime, spec: PivotSpec, names: seq<string>, store: Store, title: Literal -> string,
                          rows: seq<nat>, ai: nat)
    requires PivotFits(spec, store.types) && store.Valid() && |names| == |store.types|
    requires ai < |spec.aggregates| && IsCountStar(spec.aggregates[ai])
    requires DistinctLabels(OutputName(spec, title), |spec.values|, |spec.aggregates|, AnchorNames(spec, names))
    requires forall r: nat :: r in rows ==> r < |store.rows|
    ensures var anchorOf := AnchorOf(rt, spec, store.types, store.rows);
            var grid := Grid(FirstSeen(Keys(rows, anchorOf)), |spec.values|);
            TotalOver(grid, CellCount(rt, spec, names, store, title, rows, ai)) ==
            TotalOver(grid, CountOver(rows, BucketOf(anchorOf, SlotOf(spec, store.rows))))
  {
    AsAggregateFits(spec, store.types);
    var anchorOf := AnchorOf(rt, spec, store.types, store.rows);
    var bucketOf, order := BucketOf(anchorOf, SlotOf(spec, store.rows)), FirstSeen(Keys(rows, anchorOf));
    OrderLengths(rt, AsAggregate(spec), store, rows);
    var f, g := CellCount(rt, spec, names, store, title, rows, ai), CountOver(rows, bucketOf);
    forall b | b in Grid(order, |spec.values|) ensures f(b) == g(b) {
      GridAre(order, |spec.values|, b);
      CountCell(rt, spec, names, store, title, rows, b.value.0, b.value.1, ai);
    }
    TotalCongruent(Grid(order, |spec.values|), f, g);
  }
}
