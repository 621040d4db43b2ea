/**
 Index-assisted query execution.

 The planner turns a predicate into a set of candidate rows by one of three
 hints.  A hint is useful only if it misses no matching row; then evaluating the
 predicate on the candidates gives what a full scan gives.
 */
module Planner {
  import opened Wrappers
  import opened Float64
  import opened Values
  import opened Predicates
  import opened SecIndex
  import opened Bitmaps

  // ---- lookups on the index value ----

  function RowsForKey(ix: Index, col: nat, key: IxKey): Option<RowSet> {
    if col in ix.byCol && key in ix.byCol[col] then Some(ix.byCol[col][key]) else None
  }

  function RowsOrNone(rows: Option<RowSet>): RowSet { if rows.Some? then rows.value else {} }

  /** Union of the bitmaps of several keys. */
  function RowsForAny(ix: Index, col: nat, keys: set<IxKey>): RowSet {
    set k, r | k in keys && r in RowsOrNone(RowsForKey(ix, col, k)) :: r
  }

  function RowsInside(ix: Index, col: nat, lo: Bound, hi: Bound): Option<RowSet> {
    if col in ix.rangeByCol then Some(RowsBetween(ix.rangeByCol[col], lo, hi)) else None
  }

  function DoubleKey(d: F64): RangeKey { DoubleOrdered(OrderedBits(d)) }

  // ---- the three hints ----

  /** Equality on an indexed column, found through AND only. */
  function FindIndexHint(p: Predicate, ix: Index): Option<(nat, IxKey)> {
    match p
    case Cell(c, test) =>
      if !Covers(ix, c) then None
      else if test.StringEq? then Some((c, StringKey(test.sval)))
      else if test.LongCmp? && test.op == CmpOp.Eq then Some((c, LongKey(test.lval)))
      else if test.DoubleCmp? && test.op == CmpOp.Eq && !IsNaN(test.dval) then Some((c, DoubleBits(test.dval)))
      else None
    case And(a, b) =>
      var hint := FindIndexHint(a, ix);
      if hint.Some? then hint else FindIndexHint(b, ix)
    case _ => None
  }

  /** The interval of range keys a range test selects; `None` for other tests and NaN literals. */
  function TestInterval(test: CellTest): Option<(Bound, Bound)> {
    match test
    case LongBetween(low, high) => Some((Included(LongRange(low)), Included(LongRange(high))))
    case DoubleBetween(low, high) =>
      if IsNaN(low) || IsNaN(high) then None
      else Some((Included(DoubleKey(low)), Included(DoubleKey(high))))
    case LongCmp(op, x) => OpInterval(op, LongRange(x))
    case DoubleCmp(op, x) => if IsNaN(x) then None else OpInterval(op, DoubleKey(x))
    case _ => None
  }

  function OpInterval(op: CmpOp, k: RangeKey): Option<(Bound, Bound)> {
    match op
    case Gt => Some((Excluded(k), Unbounded))
    case Ge => Some((Included(k), Unbounded))
    case Lt => Some((Unbounded, Excluded(k)))
    case Le => Some((Unbounded, Included(k)))
    case Eq => None
    case Neq => None
  }

  function FindRangeHint(p: Predicate, ix: Index): Option<RowSet> {
    match p
    case Cell(c, test) =>
      (match TestInterval(test)
       case None => None
       case Some((lo, hi)) => RowsInside(ix, c, lo, hi))
    case And(a, b) =>
      var hint := FindRangeHint(a, ix);
      if hint.Some? then hint else FindRangeHint(b, ix)
    case _ => None
  }

  /** The keys an equality or IN test selects. */
  function TestKeys(test: CellTest): Option<set<IxKey>> {
    match test
    case StringEq(x) => Some({StringKey(x)})
    case LongCmp(op, x) => if op == CmpOp.Eq then Some({LongKey(x)}) else None
    case DoubleCmp(op, x) => if op == CmpOp.Eq && !IsNaN(x) then Some({DoubleBits(x)}) else None
    case BoolEq(x) => Some({BoolKey(x)})
    case TimestampCmp(op, x) => if op == CmpOp.Eq then Some({TimestampKey(x)}) else None
    case StringIn(xs) => Some(set x | x in xs :: StringKey(x))
    case LongIn(xs) => Some(set x | x in xs :: LongKey(x))
    case DoubleIn(xs) => Some(set x | x in xs :: DoubleBits(x))
    case BoolIn(xs) => Some(set x | x in xs :: BoolKey(x))
    case TimestampIn(xs) => Some(set x | x in xs :: TimestampKey(x))
    case _ => None
  }

  /** AND needs either side, OR needs both. */
  function FindSetHint(p: Predicate, ix: Index): Option<RowSet> {
    match p
    case Cell(c, test) =>
      if TestKeys(test).Some?
      then (if Covers(ix, c) then Some(RowsForAny(ix, c, TestKeys(test).value)) else None)
      else FindRangeHint(p, ix)
    case And(a, b) =>
      (match (FindSetHint(a, ix), FindSetHint(b, ix))
       case (Some(x), Some(y)) => Some(x * y)
       case (Some(x), None) => Some(x)
       case (None, y) => y)
    case Or(a, b) =>
      (match (FindSetHint(a, ix), FindSetHint(b, ix))
       case (Some(x), Some(y)) => Some(x + y)
       case _ => None)
    case _ => None
  }

  datatype Candidates = Bitmap(rows: RowSet) | Full(count: nat)

  function PlanCandidates(p: Predicate, rowCount: nat, index: Option<Index>): Candidates {
    if index.None? then Full(rowCount)
    else
      var ix := index.value;
      var equality := FindIndexHint(p, ix);
      if equality.Some? then
        var rows := RowsForKey(ix, equality.value.0, equality.value.1);
        // A known column without that key: iterate over nothing.
        if rows.Some? then Bitmap(rows.value) else Full(0)
      else
        var range := FindRangeHint(p, ix);
        if range.Some? then Bitmap(range.value)
        else
          var keyed := FindSetHint(p, ix);
          if keyed.Some? then Bitmap(keyed.value) else Full(rowCount)
  }

  predicate IsCandidate(c: Candidates, row: nat) {
    match c case Bitmap(rows) => row in rows case Full(n) => row < n
  }

  // ---- when an index describes a store ----

  ghost predicate InSync(ix: Index, store: Store)
    requires store.Valid()
  {
    && Lockstep(ix)
    && (forall c: nat :: Covers(ix, c) ==> c < |store.types|)
    && (forall c: nat, k, r: nat :: Covers(ix, c) ==>
          (Has(ix, c, k, r) <==> r < |store.rows| && IxKeyOf(store.rows[r][c]) == Some(k)))
  }

  // ---- negative zero: equal as numbers, different as keys ----

  /** The key of `v` is one that a lookup for `test` reaches. */
  predicate Selected(test: CellTest, v: Value)
    requires !v.IsNull()
  {
    if TestKeys(test).Some? then IxKeyOf(v).value in TestKeys(test).value
    else if TestInterval(test).Some? then
      var (lo, hi) := TestInterval(test).value;
      KeysCorrespond(IxKeyOf(v).value, LongRange(0), v);
      Above(lo, RangeKeyOf(v).value) && Below(hi, RangeKeyOf(v).value)
    else true
  }

  /** A stored zero whose sign differs from that of the zero bounding the test. */
  predicate ZeroMiss(test: CellTest, v: Value) {
    v.Double? &&
    match test
    case DoubleCmp(op, x) =>
      || ((op == CmpOp.Eq || op == CmpOp.Ge) && x == PlusZero && v.d == MinusZero)
      || ((op == CmpOp.Eq || op == CmpOp.Le) && x == MinusZero && v.d == PlusZero)
    case DoubleBetween(low, high) =>
      && !IsNaN(low) && !IsNaN(high)
      && (|| (low == PlusZero && v.d == MinusZero && Float64.Le(PlusZero, high))
          || (high == MinusZero && v.d == PlusZero && Float64.Le(low, MinusZero)))
    case _ => false
  }

  lemma DoubleCmpMisses(op: CmpOp, x: F64, d: F64)
    requires !IsNaN(d)
    ensures op.ApplyF64(d, x) && !Selected(DoubleCmp(op, x), Double(d)) <==> ZeroMiss(DoubleCmp(op, x), Double(d))
  {
    if !IsNaN(x) {
      LeAgainstKeys(d, x);
      LeAgainstKeys(x, d);
      EqAgainstKeys(d, x);
      OrderedBitsFollowsNumbers(d, x);
      OrderedBitsFollowsNumbers(x, d);
    }
  }

  lemma DoubleBetweenMisses(low: F64, high: F64, d: F64)
    requires !IsNaN(d)
    ensures Float64.Le(low, d) && Float64.Le(d, high) && !Selected(DoubleBetween(low, high), Double(d)) <==>
            ZeroMiss(DoubleBetween(low, high), Double(d))
  {
    if !IsNaN(low) && !IsNaN(high) {
      LeAgainstKeys(low, d);
      LeAgainstKeys(d, high);
      BetweenMisses(low, high, d);
    }
  }

  /** A lookup misses a value on which the test holds exactly at such a zero. */
  lemma LookupMisses(lib: Library, test: CellTest, v: Value)
    requires v.HasType(TestType(test)) && !v.IsNull()
    ensures Holds(lib, test, v) && !Selected(test, v) <==> ZeroMiss(test, v)
  {
    match test {
      case DoubleCmp(op, x) => DoubleCmpMisses(op, x, v.d);
      case DoubleBetween(low, high) => DoubleBetweenMisses(low, high, v.d);
      case _ =>
    }
  }

  lemma BetweenMisses(low: F64, high: F64, d: F64)
    requires !IsNaN(low) && !IsNaN(high) && !IsNaN(d)
    ensures low == PlusZero && d == MinusZero ==> (Float64.Le(d, high) <==> Float64.Le(PlusZero, high))
    ensures high == MinusZero && d == PlusZero ==> (Float64.Le(low, d) <==> Float64.Le(low, MinusZero))
  {
    ZeroesAreEqual();
  }

  // ---- which lookups a plan rests on ----

  /** The leaf whose single key is looked up. */
  function EqualityLeaf(p: Predicate, ix: Index): Option<(nat, CellTest)> {
    match p
    case Cell(c, test) => if FindIndexHint(p, ix).Some? then Some((c, test)) else None
    case And(a, b) => if EqualityLeaf(a, ix).Some? then EqualityLeaf(a, ix) else EqualityLeaf(b, ix)
    case _ => None
  }

  /** The leaf whose interval is looked up. */
  function RangeLeaf(p: Predicate, ix: Index): Option<(nat, CellTest)> {
    match p
    case Cell(c, test) => if FindRangeHint(p, ix).Some? then Some((c, test)) else None
    case And(a, b) => if RangeLeaf(a, ix).Some? then RangeLeaf(a, ix) else RangeLeaf(b, ix)
    case _ => None
  }

  /** Whether the combined lookups of the third strategy arrive at a row, judged by its cells. */
  predicate Reaches(p: Predicate, ix: Index, types: seq<ColumnType>, row: Row)
    requires Fits(p, types) && RowTyped(types, row)
  {
    match p
    case Cell(c, test) => !row[c].IsNull() && Selected(test, row[c])
    case And(a, b) =>
      (FindSetHint(a, ix).Some? ==> Reaches(a, ix, types, row))
        && (FindSetHint(b, ix).Some? ==> Reaches(b, ix, types, row))
    case Or(a, b) => Reaches(a, ix, types, row) || Reaches(b, ix, types, row)
    case _ => true
  }

  /**
   A zero keeps the combined lookups from a matching row: on one side of an AND; on
   every matching side of an OR, while the other side does not arrive there either.
   */
  predicate ZeroBars(lib: Library, p: Predicate, ix: Index, types: seq<ColumnType>, row: Row)
    requires Fits(p, types) && RowTyped(types, row)
  {
    match p
    case Cell(c, test) => ZeroMiss(test, row[c])
    case And(a, b) =>
      (FindSetHint(a, ix).Some? && ZeroBars(lib, a, ix, types, row))
        || (FindSetHint(b, ix).Some? && ZeroBars(lib, b, ix, types, row))
    case Or(a, b) =>
      && (if Matches(lib, a, types, row) then ZeroBars(lib, a, ix, types, row) else !Reaches(a, ix, types, row))
      && (if Matches(lib, b, types, row) then ZeroBars(lib, b, ix, types, row) else !Reaches(b, ix, types, row))
    case _ => false
  }

  predicate LeafMisses(leaf: (nat, CellTest), row: Row) { leaf.0 < |row| && ZeroMiss(leaf.1, row[leaf.0]) }

  /** The lookup the planner settles on misses a matching row by a zero. */
  predicate PlanLoses(lib: Library, p: Predicate, ix: Index, types: seq<ColumnType>, row: Row)
    requires Fits(p, types) && RowTyped(types, row)
  {
    if EqualityLeaf(p, ix).Some? then LeafMisses(EqualityLeaf(p, ix).value, row)
    else if RangeLeaf(p, ix).Some? then LeafMisses(RangeLeaf(p, ix).value, row)
    else FindSetHint(p, ix).Some? && ZeroBars(lib, p, ix, types, row)
  }

  /** No matching row is lost to a zero. */
  ghost predicate ZeroSafe(lib: Library, p: Predicate, ix: Index, store: Store)
    requires store.Valid() && Fits(p, store.types)
  {
    forall r: nat :: MatchingRow(lib, p, store, r) ==> !PlanLoses(lib, p, ix, store.types, store.rows[r])
  }

  ghost predicate MatchingRow(lib: Library, p: Predicate, store: Store, r: nat)
    requires store.Valid() && Fits(p, store.types)
  {
    r < |store.rows| && Matches(lib, p, store.types, store.rows[r])
  }

  // ---- what the lookups return on an index in sync ----

  lemma KeyedRows(ix: Index, store: Store, c: nat, keys: set<IxKey>, r: nat)
    requires store.Valid() && InSync(ix, store) && Covers(ix, c)
    ensures r in RowsForAny(ix, c, keys) <==>
            r < |store.rows| && IxKeyOf(store.rows[r][c]).Some? && IxKeyOf(store.rows[r][c]).value in keys
  {
    assert forall k :: r in RowsOrNone(RowsForKey(ix, c, k)) <==> Has(ix, c, k, r);
  }

  lemma IntervalRows(ix: Index, store: Store, c: nat, lo: Bound, hi: Bound, r: nat)
    requires store.Valid() && InSync(ix, store) && Covers(ix, c)
    ensures r in RowsBetween(ix.rangeByCol[c], lo, hi) <==>
            && r < |store.rows| && RangeKeyOf(store.rows[r][c]).Some?
            && Above(lo, RangeKeyOf(store.rows[r][c]).value) && Below(hi, RangeKeyOf(store.rows[r][c]).value)
  {
    forall k ensures HasRange(ix, c, k, r) <==> r < |store.rows| && RangeKeyOf(store.rows[r][c]) == Some(k) {
      assert HasRange(ix, c, k, r) <==> Has(ix, c, FromRange(k), r);
      if r < |store.rows| {
        var v := store.rows[r][c];
        KeysCorrespond(if IxKeyOf(v).Some? then IxKeyOf(v).value else FromRange(k), k, v);
      }
    }
    assert forall k :: HasRange(ix, c, k, r) <==> k in ix.rangeByCol[c] && r in ix.rangeByCol[c][k];
  }

  /** A leaf's lookup returns exactly the rows whose key it selects. */
  lemma LeafRows(c: nat, test: CellTest, ix: Index, store: Store, r: nat)
    requires store.Valid() && InSync(ix, store) && Covers(ix, c)
    requires TestKeys(test).Some? || TestInterval(test).Some?
    ensures FindSetHint(Cell(c, test), ix).Some?
    ensures r in FindSetHint(Cell(c, test), ix).value <==>
            r < |store.rows| && !store.rows[r][c].IsNull() && Selected(test, store.rows[r][c])
  {
    if TestKeys(test).Some? {
      KeyedRows(ix, store, c, TestKeys(test).value, r);
    } else {
      var (lo, hi) := TestInterval(test).value;
      IntervalRows(ix, store, c, lo, hi, r);
      if r < |store.rows| {
        var v := store.rows[r][c];
        KeysCorrespond(if IxKeyOf(v).Some? then IxKeyOf(v).value else LongKey(0), LongRange(0), v);
      }
    }
  }

  // ---- what each strategy loses ----

  lemma {:induction false} EqualityLeafLaws(lib: Library, p: Predicate, ix: Index, types: seq<ColumnType>, row: Row)
    requires Fits(p, types) && RowTyped(types, row) && Matches(lib, p, types, row)
    ensures FindIndexHint(p, ix).Some? <==> EqualityLeaf(p, ix).Some?
    ensures EqualityLeaf(p, ix).Some? ==>
              var (c, test) := EqualityLeaf(p, ix).value;
              && FindIndexHint(p, ix) == FindIndexHint(Cell(c, test), ix)
              && Fits(Cell(c, test), types) && Matches(lib, Cell(c, test), types, row)
  {
    if p.And? {
      EqualityLeafLaws(lib, p.left, ix, types, row);
      EqualityLeafLaws(lib, p.right, ix, types, row);
    }
  }

  lemma {:induction false} RangeLeafLaws(lib: Library, p: Predicate, ix: Index, types: seq<ColumnType>, row: Row)
    requires Fits(p, types) && RowTyped(types, row) && Matches(lib, p, types, row)
    ensures FindRangeHint(p, ix).Some? <==> RangeLeaf(p, ix).Some?
    ensures RangeLeaf(p, ix).Some? ==>
              var (c, test) := RangeLeaf(p, ix).value;
              && FindRangeHint(p, ix) == FindRangeHint(Cell(c, test), ix)
              && Fits(Cell(c, test), types) && Matches(lib, Cell(c, test), types, row)
  {
    if p.And? {
      RangeLeafLaws(lib, p.left, ix, types, row);
      RangeLeafLaws(lib, p.right, ix, types, row);
    }
  }

  /** A single key is looked up: the row is missed exactly at a zero. */
  lemma EqualityLookupExact(lib: Library, c: nat, test: CellTest, ix: Index, store: Store, r: nat)
    requires store.Valid() && Fits(Cell(c, test), store.types) && InSync(ix, store)
    requires FindIndexHint(Cell(c, test), ix).Some? && MatchingRow(lib, Cell(c, test), store, r)
    ensures var (col, key) := FindIndexHint(Cell(c, test), ix).value;
            col == c && Covers(ix, c) && (!Has(ix, c, key, r) <==> ZeroMiss(test, store.rows[r][c]))
  {
    LookupMisses(lib, test, store.rows[r][c]);
  }

  lemma LeafLookupExact(lib: Library, c: nat, test: CellTest, ix: Index, store: Store, r: nat)
    requires store.Valid() && Fits(Cell(c, test), store.types) && InSync(ix, store)
    requires FindSetHint(Cell(c, test), ix).Some? && MatchingRow(lib, Cell(c, test), store, r)
    ensures r !in FindSetHint(Cell(c, test), ix).value <==> ZeroMiss(test, store.rows[r][c])
  {
    LeafRows(c, test, ix, store, r);
    LookupMisses(lib, test, store.rows[r][c]);
  }

  /** The interval lookup of a leaf is what the third strategy would look up there. */
  lemma RangeIsSet(c: nat, test: CellTest, ix: Index)
    requires FindRangeHint(Cell(c, test), ix).Some?
    ensures FindSetHint(Cell(c, test), ix) == FindRangeHint(Cell(c, test), ix)
  {
  }

  /** The combined lookups return the rows they reach. */
  lemma {:induction false} SetHintIsReach(p: Predicate, ix: Index, store: Store, r: nat)
    requires store.Valid() && Fits(p, store.types) && InSync(ix, store) && FindSetHint(p, ix).Some? && r < |store.rows|
    ensures r in FindSetHint(p, ix).value <==> Reaches(p, ix, store.types, store.rows[r])
  {
    match p {
      case Cell(c, test) => LeafRows(c, test, ix, store, r);
      case And(a, b) =>
        if FindSetHint(a, ix).Some? { SetHintIsReach(a, ix, store, r); }
        if FindSetHint(b, ix).Some? { SetHintIsReach(b, ix, store, r); }
      case Or(a, b) =>
        SetHintIsReach(a, ix, store, r);
        SetHintIsReach(b, ix, store, r);
      case _ =>
    }
  }

  /** They fail to reach a matching row exactly where a zero bars them. */
  lemma {:induction false} ReachFailsAtZero(lib: Library, p: Predicate, ix: Index, types: seq<ColumnType>, row: Row)
    requires Fits(p, types) && RowTyped(types, row) && Matches(lib, p, types, row)
    ensures !Reaches(p, ix, types, row) <==> ZeroBars(lib, p, ix, types, row)
  {
    match p {
      case Cell(c, test) => LookupMisses(lib, test, row[c]);
      case And(a, b) =>
        ReachFailsAtZero(lib, a, ix, types, row);
        ReachFailsAtZero(lib, b, ix, types, row);
      case Or(a, b) =>
        if Matches(lib, a, types, row) { ReachFailsAtZero(lib, a, ix, types, row); }
        if Matches(lib, b, types, row) { ReachFailsAtZero(lib, b, ix, types, row); }
      case _ =>
    }
  }

  /** For every tree: the plan loses a matching row exactly if the lookup it settles on misses it by a zero. */
  lemma PlanExact(lib: Library, p: Predicate, ix: Index, store: Store, r: nat)
    requires store.Valid() && Fits(p, store.types) && InSync(ix, store) && MatchingRow(lib, p, store, r)
    ensures !IsCandidate(PlanCandidates(p, |store.rows|, Some(ix)), r) <==>
            PlanLoses(lib, p, ix, store.types, store.rows[r])
  {
    var row := store.rows[r];
    EqualityLeafLaws(lib, p, ix, store.types, row);
    RangeLeafLaws(lib, p, ix, store.types, row);
    if EqualityLeaf(p, ix).Some? {
      var (c, test) := EqualityLeaf(p, ix).value;
      EqualityLookupExact(lib, c, test, ix, store, r);
    } else if RangeLeaf(p, ix).Some? {
      var (c, test) := RangeLeaf(p, ix).value;
      RangeIsSet(c, test, ix);
      LeafLookupExact(lib, c, test, ix, store, r);
    } else if FindSetHint(p, ix).Some? {
      SetHintIsReach(p, ix, store, r);
      ReachFailsAtZero(lib, p, ix, store.types, row);
    }
  }

  /** The plan offers only rows of the store, and every matching row unless one is lost to a zero. */
  lemma PlanIsSound(lib: Library, p: Predicate, index: Option<Index>, store: Store, r: nat)
    requires store.Valid() && Fits(p, store.types)
    requires index.Some? ==> InSync(index.value, store)
    ensures MatchingRow(lib, p, store, r) ==>
              (IsCandidate(PlanCandidates(p, |store.rows|, index), r) <==>
               index.None? || !PlanLoses(lib, p, index.value, store.types, store.rows[r]))
    ensures IsCandidate(PlanCandidates(p, |store.rows|, index), r) ==> r < |store.rows|
  {
    if index.Some? {
      HintsStayInside(p, index.value, store, r);
      if MatchingRow(lib, p, store, r) { PlanExact(lib, p, index.value, store, r); }
    }
  }

  lemma {:induction false} HintsStayInside(p: Predicate, ix: Index, store: Store, r: nat)
    requires store.Valid() && InSync(ix, store)
    ensures var hint := FindRangeHint(p, ix); hint.Some? && r in hint.value ==> r < |store.rows|
    ensures var hint := FindSetHint(p, ix); hint.Some? && r in hint.value ==> r < |store.rows|
    ensures var hint := FindIndexHint(p, ix);
            hint.Some? ==> Covers(ix, hint.value.0) &&
                           (r in RowsOrNone(RowsForKey(ix, hint.value.0, hint.value.1)) ==> r < |store.rows|)
  {
    match p {
      case Cell(c, test) =>
        if Covers(ix, c) {
          if TestKeys(test).Some? || TestInterval(test).Some? { LeafRows(c, test, ix, store, r); }
          if TestInterval(test).Some? {
            var (lo, hi) := TestInterval(test).value;
            IntervalRows(ix, store, c, lo, hi, r);
          }
          var hint := FindIndexHint(p, ix);
          if hint.Some? { assert r in RowsOrNone(RowsForKey(ix, c, hint.value.1)) <==> Has(ix, c, hint.value.1, r); }
        }
      case And(a, b) =>
        HintsStayInside(a, ix, store, r);
        HintsStayInside(b, ix, store, r);
      case Or(a, b) =>
        HintsStayInside(a, ix, store, r);
        HintsStayInside(b, ix, store, r);
      case _ =>
    }
  }

  /** For a double leaf all three strategies come down to the same lookup. */
  lemma LeafPlanIsSetHint(c: nat, test: CellTest, ix: Index, n: nat, r: nat)
    requires test.DoubleCmp? || test.DoubleBetween?
    requires FindSetHint(Cell(c, test), ix).Some? && Covers(ix, c)
    ensures IsCandidate(PlanCandidates(Cell(c, test), n, Some(ix)), r) <==> r in FindSetHint(Cell(c, test), ix).value
  {
    RowsForOneKey(ix, c);
  }

  lemma RowsForOneKey(ix: Index, c: nat)
    ensures forall k :: RowsForAny(ix, c, {k}) == RowsOrNone(RowsForKey(ix, c, k))
  {
  }

  // ---- the smallest index that loses a row ----

  const ZeroStore: Store := Store([DoubleType], [[Double(MinusZero)]])

  const ZeroIndex: Index :=
    Index([0], map[0 := map[DoubleBits(MinusZero) := {0}]], map[0 := map[DoubleKey(MinusZero) := {0}]])

  lemma ZeroIndexInSync()
    ensures ZeroStore.Valid() && InSync(ZeroIndex, ZeroStore)
  {
    var bits, ordered := DoubleBits(MinusZero), DoubleKey(MinusZero);
    forall k ensures k == ordered <==> FromRange(k) == bits {
      KeysCorrespond(bits, k, Null);
    }
    assert forall c, k, r :: Has(ZeroIndex, c, k, r) <==> c == 0 && k == bits && r == 0;
    assert forall c, k, r :: HasRange(ZeroIndex, c, k, r) <==> c == 0 && k == ordered && r == 0;
    assert IxKeyOf(ZeroStore.rows[0][0]) == Some(bits);
  }

  /** `col = 0.0` over one stored -0.0: the scan finds the row, the index does not offer it. */
  lemma NegativeZeroIsLost(lib: Library)
    ensures ZeroStore.Valid() && InSync(ZeroIndex, ZeroStore)
    ensures var p := Cell(0, DoubleCmp(CmpOp.Eq, PlusZero));
            MatchingRow(lib, p, ZeroStore, 0) && !IsCandidate(PlanCandidates(p, 1, Some(ZeroIndex)), 0)
  {
    ZeroIndexInSync();
    var test := DoubleCmp(CmpOp.Eq, PlusZero);
    LookupMisses(lib, test, ZeroStore.rows[0][0]);
    LeafRows(0, test, ZeroIndex, ZeroStore, 0);
    LeafPlanIsSetHint(0, test, ZeroIndex, 1, 0);
  }
}
