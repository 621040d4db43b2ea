/**
 Execution of row queries: candidates, filter, sort, offset, limit, projection.
 */
module Executor {
  import opened Wrappers
  import opened Orders
  import opened Values
  import opened Predicates
  import opened SecIndex
  import opened Bitmaps
  import opened Planner
  import opened Grouping

  /** Computed SELECT columns are functions of the whole source row. */
  datatype Query = Query(
    predicate_: Predicate,
    orderBy: seq<SortKey>,
    offset: Option<nat>,
    limit: Option<nat>,
    projection: seq<nat>,
    computed: seq<Row -> Value>)

  datatype OutputRow = OutputRow(cells: seq<Value>, computed: seq<Value>)

  datatype QueryResult = QueryResult(rows: seq<OutputRow>, totalMatches: nat, sourceRows: seq<nat>)

  ghost predicate QueryFits(q: Query, types: seq<ColumnType>) {
    && Fits(q.predicate_, types)
    && KeysFit(q.orderBy, types)
    && forall i :: 0 <= i < |q.projection| ==> q.projection[i] < |types|
  }

  function RowsOf(c: Candidates): (r: seq<nat>)
    ensures StrictlyUp(r) && forall x: nat :: x in r <==> IsCandidate(c, x)
  {
    match c
    case Bitmap(rows) => Ascending(rows)
    case Full(n) => UpTo(n)
  }

  // ---- the full scan ----

  /** The matching rows among the first `n`, ascending. */
  function Scan(lib: Library, p: Predicate, store: Store, n: nat): seq<nat>
    requires n <= |store.rows| && Fits(p, store.types)
    requires forall r :: 0 <= r < |store.rows| ==> RowTyped(store.types, store.rows[r])
  {
    if n == 0 then []
    else Scan(lib, p, store, n - 1) + if Matches(lib, p, store.types, store.rows[n - 1]) then [n - 1] else []
  }

  lemma {:induction false} ScanIsExact(lib: Library, p: Predicate, store: Store, n: nat)
    requires n <= |store.rows| && Fits(p, store.types) && store.Valid()
    ensures StrictlyUp(Scan(lib, p, store, n))
    ensures forall r: nat :: r in Scan(lib, p, store, n) <==> r < n && MatchingRow(lib, p, store, r)
  {
    if n > 0 {
      ScanIsExact(lib, p, store, n - 1);
      var front := Scan(lib, p, store, n - 1);
      assert forall i :: 0 <= i < |front| ==> front[i] in front;
    }
  }

  // ---- what happens to the matching rows ----

  function Ordered(q: Query, store: Store, rows: seq<nat>): seq<nat> {
    if q.orderBy == [] then rows else StableSort(rows, RowOrder(q.orderBy, store.rows))
  }

  /** OFFSET, then LIMIT: the rows at the positions from `offset` on, at most `limit` of them. */
  function SliceOf(rows: seq<nat>, offset: Option<nat>, limit: Option<nat>): (r: seq<nat>)
    ensures forall i :: 0 <= i < |r| ==> r[i] in rows
  {
    var from := if offset.None? then 0 else if offset.value >= |rows| then |rows| else offset.value;
    var to := if limit.None? || from + limit.value >= |rows| then |rows| else from + limit.value;
    rows[from..to]
  }

  /** An empty projection selects every column. */
  function ProjectedColumns(q: Query, types: seq<ColumnType>): seq<nat> {
    if q.projection == [] then seq(|types|, i => i) else q.projection
  }

  function Project(q: Query, types: seq<ColumnType>, row: Row): OutputRow
    requires RowTyped(types, row)
    requires forall i :: 0 <= i < |q.projection| ==> q.projection[i] < |types|
  {
    var cols := ProjectedColumns(q, types);
    OutputRow(seq(|cols|, i requires 0 <= i < |cols| => row[cols[i]]),
              seq(|q.computed|, i requires 0 <= i < |q.computed| => q.computed[i](row)))
  }

  function ProjectAll(q: Query, store: Store, rows: seq<nat>): seq<OutputRow>
    requires forall r :: 0 <= r < |store.rows| ==> RowTyped(store.types, store.rows[r])
    requires forall i :: 0 <= i < |q.projection| ==> q.projection[i] < |store.types|
    requires forall i :: 0 <= i < |rows| ==> rows[i] < |store.rows|
  {
    seq(|rows|, i requires 0 <= i < |rows| => Project(q, store.types, store.rows[rows[i]]))
  }

  /** The matching rows after ORDER BY, OFFSET and LIMIT. */
  ghost function Page(lib: Library, q: Query, store: Store): (page: seq<nat>)
    requires store.Valid() && QueryFits(q, store.types)
    ensures forall i :: 0 <= i < |page| ==> MatchingRow(lib, q.predicate_, store, page[i])
  {
    var matching := Scan(lib, q.predicate_, store, |store.rows|);
    ScanIsExact(lib, q.predicate_, store, |store.rows|);
    OrderedKeepsElements(q, store, matching);
    SliceOf(Ordered(q, store, matching), q.offset, q.limit)
  }

  lemma OrderedKeepsElements(q: Query, store: Store, rows: seq<nat>)
    ensures forall r: nat :: r in Ordered(q, store, rows) <==> r in rows
  {
    forall r: nat ensures r in Ordered(q, store, rows) <==> r in rows {
      SortKeepsElements(rows, RowOrder(q.orderBy, store.rows), r);
    }
  }

  ghost function ScanResult(lib: Library, q: Query, store: Store): QueryResult
    requires store.Valid() && QueryFits(q, store.types)
  {
    var page := Page(lib, q, store);
    QueryResult(ProjectAll(q, store, page), |Scan(lib, q.predicate_, store, |store.rows|)|, page)
  }

  /** Evaluate the predicate on every candidate, in order. */
  method Filter(lib: Library, p: Predicate, store: Store, candidates: seq<nat>) returns (rows: seq<nat>)
    requires store.Valid() && Fits(p, store.types)
    requires StrictlyUp(candidates) && forall r: nat :: r in candidates ==> r < |store.rows|
    ensures StrictlyUp(rows)
    ensures forall r: nat :: r in rows <==> r in candidates && MatchingRow(lib, p, store, r)
  {
    rows := [];
    for i := 0 to |candidates|
      invariant StrictlyUp(rows)
      invariant forall r: nat :: r in rows <==> r in candidates[..i] && MatchingRow(lib, p, store, r)
    {
      var row := candidates[i];
      assert row in candidates;
      assert candidates[..i + 1] == candidates[..i] + [row];
      assert forall k :: 0 <= k < |rows| ==> rows[k] in rows;
      if Matches(lib, p, store.types, store.rows[row]) {
        rows := rows + [row];
      }
    }
    assert candidates[..|candidates|] == candidates;
  }

  /** A row the plan does not lose to a zero. */
  ghost function Kept(lib: Library, p: Predicate, store: Store, index: Option<Index>): nat -> bool
    requires store.Valid() && Fits(p, store.types)
  {
    (r: nat) => index.None? || r >= |store.rows| || !PlanLoses(lib, p, index.value, store.types, store.rows[r])
  }

  /** The matching rows that are not lost, ascending. */
  ghost function Offered(lib: Library, p: Predicate, store: Store, index: Option<Index>): seq<nat>
    requires store.Valid() && Fits(p, store.types)
  {
    Members(Scan(lib, p, store, |store.rows|), Kept(lib, p, store, index), true)
  }

  lemma OfferedAre(lib: Library, p: Predicate, store: Store, index: Option<Index>)
    requires store.Valid() && Fits(p, store.types)
    ensures StrictlyUp(Offered(lib, p, store, index))
    ensures forall r: nat :: r in Offered(lib, p, store, index) <==>
              MatchingRow(lib, p, store, r) && Kept(lib, p, store, index)(r)
  {
    var scan, kept := Scan(lib, p, store, |store.rows|), Kept(lib, p, store, index);
    ScanIsExact(lib, p, store, |store.rows|);
    MembersAscend(scan, kept, true);
    forall r: nat ensures r in Offered(lib, p, store, index) <==> MatchingRow(lib, p, store, r) && kept(r) {
      MembersAre(scan, kept, true, r);
    }
  }

  /** No matching row is lost to a zero, or there is no index. */
  ghost predicate AllOffered(lib: Library, p: Predicate, store: Store, index: Option<Index>)
    requires store.Valid() && Fits(p, store.types)
  {
    index.Some? ==> ZeroSafe(lib, p, index.value, store)
  }

  lemma AllKept(lib: Library, p: Predicate, store: Store, index: Option<Index>)
    requires store.Valid() && Fits(p, store.types)
    ensures AllOffered(lib, p, store, index) <==>
            forall r: nat :: MatchingRow(lib, p, store, r) ==> Kept(lib, p, store, index)(r)
  {
  }

  /** All matching rows are offered, or fewer. */
  lemma OfferedExactly(lib: Library, p: Predicate, store: Store, index: Option<Index>)
    requires store.Valid() && Fits(p, store.types)
    ensures var scan, offered := Scan(lib, p, store, |store.rows|), Offered(lib, p, store, index);
            && |offered| <= |scan| && (|offered| == |scan| <==> AllOffered(lib, p, store, index))
            && (offered == scan <==> AllOffered(lib, p, store, index))
  {
    OfferedAre(lib, p, store, index);
    AllKept(lib, p, store, index);
    ScanIsExact(lib, p, store, |store.rows|);
    AscendingSubset(Offered(lib, p, store, index), Scan(lib, p, store, |store.rows|));
  }

  /** The rows that survive the predicate are those of the full scan less the ones the index loses to a zero. */
  method MatchingRows(lib: Library, p: Predicate, store: Store, index: Option<Index>) returns (rows: seq<nat>)
    requires store.Valid() && Fits(p, store.types)
    requires index.Some? ==> InSync(index.value, store)
    ensures rows == Offered(lib, p, store, index)
    ensures rows == Scan(lib, p, store, |store.rows|) <==> AllOffered(lib, p, store, index)
  {
    var candidates := RowsOf(PlanCandidates(p, |store.rows|, index));
    forall r: nat
      ensures r in candidates ==> r < |store.rows|
      ensures MatchingRow(lib, p, store, r) ==> (r in candidates <==> Kept(lib, p, store, index)(r))
    {
      PlanIsSound(lib, p, index, store, r);
    }
    rows := Filter(lib, p, store, candidates);
    OfferedAre(lib, p, store, index);
    OfferedExactly(lib, p, store, index);
    AscendingUnique(rows, Offered(lib, p, store, index));
  }

  method SkipAndTruncate(all: seq<nat>, offset: Option<nat>, limit: Option<nat>) returns (rows: seq<nat>)
    ensures rows == SliceOf(all, offset, limit)
  {
    rows := all;
    if offset.Some? {
      if offset.value >= |rows| { rows := []; } else { rows := rows[offset.value..]; }
    }
    if limit.Some? && limit.value < |rows| {
      rows := rows[..limit.value];
    }
  }

  /** The page cut from the offered rows. */
  ghost function OfferedPage(lib: Library, q: Query, store: Store, index: Option<Index>): (page: seq<nat>)
    requires store.Valid() && QueryFits(q, store.types)
    ensures forall i :: 0 <= i < |page| ==> MatchingRow(lib, q.predicate_, store, page[i])
    ensures AllOffered(lib, q.predicate_, store, index) ==> page == Page(lib, q, store)
  {
    var offered := Offered(lib, q.predicate_, store, index);
    OfferedAre(lib, q.predicate_, store, index);
    OfferedExactly(lib, q.predicate_, store, index);
    OrderedKeepsElements(q, store, offered);
    SliceOf(Ordered(q, store, offered), q.offset, q.limit)
  }

  /**
   Running with an index gives the result of the full scan (the same rows in the
   same order, the same total, after sort, offset, limit and projection) exactly
   if no matching row is lost to a zero; in any case the result on the others.
   */
  method ExecuteQuery(lib: Library, q: Query, store: Store, index: Option<Index>) returns (res: QueryResult)
    requires store.Valid() && QueryFits(q, store.types)
    requires index.Some? ==> InSync(index.value, store)
    ensures var page := OfferedPage(lib, q, store, index);
            res == QueryResult(ProjectAll(q, store, page), |Offered(lib, q.predicate_, store, index)|, page)
    ensures res == ScanResult(lib, q, store) <==> AllOffered(lib, q.predicate_, store, index)
  {
    var rows := MatchingRows(lib, q.predicate_, store, index);
    OfferedExactly(lib, q.predicate_, store, index);
    var total := |rows|;
    if q.orderBy != [] {
      rows := StableSort(rows, RowOrder(q.orderBy, store.rows));
    }
    rows := SkipAndTruncate(rows, q.offset, q.limit);
    assert rows == OfferedPage(lib, q, store, index);
    res := QueryResult(ProjectAll(q, store, rows), total, rows);
  }

  /** Before OFFSET and LIMIT the rows are the matching ones, in ORDER BY order, ties by row number. */
  lemma ScanOrder(lib: Library, q: Query, store: Store)
    requires store.Valid() && QueryFits(q, store.types)
    ensures var matching := Scan(lib, q.predicate_, store, |store.rows|);
            var ordered := Ordered(q, store, matching);
            && (forall r: nat :: r in ordered <==> MatchingRow(lib, q.predicate_, store, r))
            && |ordered| == |matching|
            && AscendsBy(RowOrder(q.orderBy, store.rows), (a: nat, b: nat) => a < b, ordered)
  {
    var matching := Scan(lib, q.predicate_, store, |store.rows|);
    ScanIsExact(lib, q.predicate_, store, |store.rows|);
    var le := RowOrder(q.orderBy, store.rows);
    var tie := (a: nat, b: nat) => a < b;
    RowOrderIsPreorder(q.orderBy, store);
    OrderedKeepsElements(q, store, matching);
    if q.orderBy != [] {
      StableSortAscends(matching, le, tie);
    } else {
      forall i, j | 0 <= i < j < |matching| ensures Before(le, tie, matching[i], matching[j]) {
        assert le(matching[i], matching[j]);
      }
    }
  }
}
