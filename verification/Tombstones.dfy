/**
 Deleted rows stay in the table, nulled, until their slot is reused.  A row query
 drops them from its result at the very end, after OFFSET and LIMIT.
 */
module Tombstones {
  import opened Wrappers
  import opened Orders
  import opened Values
  import opened Predicates
  import opened Bitmaps
  import opened SecIndex
  import opened Planner
  import opened Executor
  import opened Grouping

  function InLive(live: RowSet): nat -> bool { (r: nat) => r in live }

  /** The live ones of `rows`, in order. */
  ghost function LiveOf(rows: seq<nat>, live: RowSet): seq<nat> { Members(rows, InLive(live), true) }

  /** Walk rows and source rows together, keeping the live ones. */
  method DropTombstones(res: QueryResult, live: RowSet, ghost rowOf: nat -> OutputRow) returns (kept: QueryResult)
    requires |res.rows| == |res.sourceRows| && forall i :: 0 <= i < |res.rows| ==>
               res.rows[i] == rowOf(res.sourceRows[i])
    ensures kept.sourceRows == LiveOf(res.sourceRows, live)
    ensures kept.totalMatches == |kept.rows| == |kept.sourceRows|
    ensures forall i :: 0 <= i < |kept.rows| ==> kept.rows[i] == rowOf(kept.sourceRows[i])
  {
    var rows: seq<OutputRow> := [];
    var source: seq<nat> := [];
    for i := 0 to |res.sourceRows|
      invariant source == LiveOf(res.sourceRows[..i], live) && |rows| == |source|
      invariant forall j :: 0 <= j < |rows| ==> rows[j] == rowOf(source[j])
    {
      MembersSnoc(res.sourceRows[..i], InLive(live), res.sourceRows[i], true);
      assert res.sourceRows[..i + 1] == res.sourceRows[..i] + [res.sourceRows[i]];
      if res.sourceRows[i] in live {
        rows := rows + [res.rows[i]];
        source := source + [res.sourceRows[i]];
      }
    }
    assert res.sourceRows[..|res.sourceRows|] == res.sourceRows;
    kept := QueryResult(rows, |rows|, source);
  }

  // ---- pages of live rows ----

  ghost predicate AllLive(rows: seq<nat>, live: RowSet) { forall i :: 0 <= i < |rows| ==> rows[i] in live }

  lemma {:induction false} LiveOfAppend(a: seq<nat>, b: seq<nat>, live: RowSet)
    ensures LiveOf(a + b, live) == LiveOf(a, live) + LiveOf(b, live)
  {
    if b == [] {
      assert a + b == a && LiveOf(a, live) + [] == LiveOf(a, live);
    } else {
      var front, last := b[..|b| - 1], b[|b| - 1];
      LiveOfAppend(a, front, live);
      assert a + b == (a + front) + [last] && b == front + [last];
      MembersSnoc(a + front, InLive(live), last, true);
      MembersSnoc(front, InLive(live), last, true);
    }
  }

  lemma {:induction false} LiveOfLength(rows: seq<nat>, live: RowSet)
    ensures |LiveOf(rows, live)| <= |rows|
    ensures |LiveOf(rows, live)| == |rows| <==> AllLive(rows, live)
    ensures AllLive(rows, live) ==> LiveOf(rows, live) == rows
  {
    if rows != [] {
      var front, last := rows[..|rows| - 1], rows[|rows| - 1];
      LiveOfLength(front, live);
      assert rows == front + [last];
      MembersSnoc(front, InLive(live), last, true);
      assert AllLive(rows, live) <==> AllLive(front, live) && last in live;
    }
  }

  lemma {:induction false} LiveOfDistinct(rows: seq<nat>, live: RowSet)
    requires Distinct(rows)
    ensures Distinct(LiveOf(rows, live))
  {
    if rows != [] {
      var front, last := rows[..|rows| - 1], rows[|rows| - 1];
      LiveOfDistinct(front, live);
      var m := LiveOf(front, live);
      forall i | 0 <= i < |m| ensures m[i] != last {
        assert m[i] in m;
        MembersAre(front, InLive(live), true, m[i]);
      }
      assert rows == front + [last];
      MembersSnoc(front, InLive(live), last, true);
    }
  }

  /** Two slices of a sequence without repetition are equal when both are empty or at the same place. */
  lemma SameSlice(s: seq<nat>, a: nat, b: nat, c: nat, d: nat)
    requires Distinct(s) && a <= b <= |s| && c <= d <= |s|
    ensures s[a..b] == s[c..d] <==> (a == b && c == d) || (a == c && b == d)
  {
    if s[a..b] == s[c..d] && a < b {
      assert s[a..b][0] == s[a] && s[c..d][0] == s[c];
    }
  }

  /** Where OFFSET and LIMIT cut `n` rows. */
  function From(n: nat, offset: Option<nat>): (f: nat)
    ensures f <= n
  {
    if offset.None? then 0 else if offset.value >= n then n else offset.value
  }

  function To(n: nat, offset: Option<nat>, limit: Option<nat>): (t: nat)
    ensures From(n, offset) <= t <= n
  {
    if limit.None? || From(n, offset) + limit.value >= n then n else From(n, offset) + limit.value
  }

  lemma SliceIsCut(rows: seq<nat>, offset: Option<nat>, limit: Option<nat>)
    ensures SliceOf(rows, offset, limit) == rows[From(|rows|, offset)..To(|rows|, offset, limit)]
  {
  }

  /**
   When dropping the deleted rows of a page leaves the page of the live rows: there
   is no live row on the page and none to be had (the limit is 0, or the offset
   skips them all), or nothing deleted comes before the page, and nothing deleted
   is on it or nothing live comes after it.
   */
  ghost predicate PageUnharmed(rows: seq<nat>, live: RowSet, offset: Option<nat>, limit: Option<nat>) {
    var from, to := From(|rows|, offset), To(|rows|, offset, limit);
    || (LiveOf(rows[from..to], live) == [] &&
        (limit == Some(0) || |LiveOf(rows, live)| <= if offset.None? then 0 else offset.value))
    || (AllLive(rows[..from], live) && (AllLive(rows[from..to], live) || LiveOf(rows[to..], live) == []))
  }

  lemma LiveParts(rows: seq<nat>, live: RowSet, from: nat, to: nat)
    requires from <= to <= |rows|
    ensures var f, a := LiveOf(rows, live), |LiveOf(rows[..from], live)|;
            var b := a + |LiveOf(rows[from..to], live)|;
            && a <= b <= |f| && f[a..b] == LiveOf(rows[from..to], live)
            && |f| == b + |LiveOf(rows[to..], live)|
  {
    var x, y, z := rows[..from], rows[from..to], rows[to..];
    assert rows == (x + y) + z;
    LiveOfAppend(x + y, z, live);
    LiveOfAppend(x, y, live);
  }

  /** How many live rows come before the page, before its end, and after it. */
  ghost function Counts(rows: seq<nat>, live: RowSet, from: nat, to: nat): (nat, nat, nat)
    requires from <= to <= |rows|
  {
    var a := |LiveOf(rows[..from], live)|;
    (a, a + |LiveOf(rows[from..to], live)|, |LiveOf(rows[to..], live)|)
  }

  lemma CountsBounded(rows: seq<nat>, live: RowSet, from: nat, to: nat)
    requires from <= to <= |rows|
    ensures var (a, b, after) := Counts(rows, live, from, to);
            && a <= from && a <= b && b - a <= to - from && after <= |rows| - to && |LiveOf(rows, live)| == b + after
            && (a == from <==> AllLive(rows[..from], live)) && (b - a == to - from <==> AllLive(rows[from..to], live))
  {
    LiveParts(rows, live, from, to);
    LiveOfLength(rows[..from], live);
    LiveOfLength(rows[from..to], live);
    LiveOfLength(rows[to..], live);
  }

  lemma PagesAsSlices(rows: seq<nat>, live: RowSet, offset: Option<nat>, limit: Option<nat>)
    requires Distinct(rows)
    ensures var f := LiveOf(rows, live);
            var (a, b, _) := Counts(rows, live, From(|rows|, offset), To(|rows|, offset, limit));
            var from', to' := From(|f|, offset), To(|f|, offset, limit);
            LiveOf(SliceOf(rows, offset, limit), live) == SliceOf(f, offset, limit) <==>
            (a == b && from' == to') || (a == from' && b == to')
  {
    var f := LiveOf(rows, live);
    var from, to := From(|rows|, offset), To(|rows|, offset, limit);
    SliceIsCut(rows, offset, limit);
    SliceIsCut(f, offset, limit);
    LiveParts(rows, live, from, to);
    LiveOfDistinct(rows, live);
    var (a, b, _) := Counts(rows, live, from, to);
    SameSlice(f, a, b, From(|f|, offset), To(|f|, offset, limit));
  }

  lemma UnharmedByCounts(rows: seq<nat>, live: RowSet, offset: Option<nat>, limit: Option<nat>)
    ensures var f := LiveOf(rows, live);
            var from, to := From(|rows|, offset), To(|rows|, offset, limit);
            var (a, b, after) := Counts(rows, live, from, to);
            PageUnharmed(rows, live, offset, limit) <==>
            (a == b && From(|f|, offset) == To(|f|, offset, limit)) || (a == from && (b - a == to - from || after == 0))
  {
    SliceIsCut(LiveOf(rows, live), offset, limit);
    CountsBounded(rows, live, From(|rows|, offset), To(|rows|, offset, limit));
  }

  /** The arithmetic of the two cuts. */
  lemma CutsAgree(n: nat, m: nat, offset: Option<nat>, limit: Option<nat>, a: nat, b: nat, after: nat)
    requires var from, to := From(n, offset), To(n, offset, limit);
             a <= from && a <= b && b - a <= to - from && m == b + after && after <= n - to
    ensures var from, to, from', to' := From(n, offset), To(n, offset, limit), From(m, offset), To(m, offset, limit);
            (a == b && from' == to') || (a == from' && b == to') <==>
            (a == b && from' == to') || (a == from && (b - a == to - from || after == 0))
  {
  }

  /** The page a query returns is the page of the live rows if and only if it is unharmed. */
  lemma TombstonesExact(rows: seq<nat>, live: RowSet, offset: Option<nat>, limit: Option<nat>)
    requires Distinct(rows)
    ensures LiveOf(SliceOf(rows, offset, limit), live) == SliceOf(LiveOf(rows, live), offset, limit) <==>
            PageUnharmed(rows, live, offset, limit)
  {
    var from, to := From(|rows|, offset), To(|rows|, offset, limit);
    var (a, b, after) := Counts(rows, live, from, to);
    PagesAsSlices(rows, live, offset, limit);
    UnharmedByCounts(rows, live, offset, limit);
    CountsBounded(rows, live, from, to);
    CutsAgree(|rows|, |LiveOf(rows, live)|, offset, limit, a, b, after);
  }

  /** Without OFFSET and LIMIT nothing is harmed. */
  lemma NoCutNoHarm(rows: seq<nat>, live: RowSet)
    requires Distinct(rows)
    ensures LiveOf(SliceOf(rows, None, None), live) == SliceOf(LiveOf(rows, live), None, None)
  {
    assert rows[|rows|..] == [] && rows[..0] == [];
    TombstonesExact(rows, live, None, None);
  }

  /** One deleted row ahead of one live row: `LIMIT 1` returns nothing. */
  lemma LimitCountsTombstones()
    ensures LiveOf(SliceOf([0, 1], None, Some(1)), {1}) == [] && SliceOf(LiveOf([0, 1], {1}), None, Some(1)) == [1]
  {
    assert [0, 1][0..1] == [0] && [0][..0] == [] && [0, 1][..1] == [0];
    assert LiveOf([0], {1}) == [];
    assert LiveOf([0, 1], {1}) == [1];
  }

  // ---- the page of a query ----

  /** The matching rows in ORDER BY order, before OFFSET and LIMIT. */
  ghost function Matching(lib: Library, q: Query, store: Store): seq<nat>
    requires store.Valid() && QueryFits(q, store.types)
  {
    Ordered(q, store, Scan(lib, q.predicate_, store, |store.rows|))
  }

  lemma MatchingDistinct(lib: Library, q: Query, store: Store)
    requires store.Valid() && QueryFits(q, store.types)
    ensures Distinct(Matching(lib, q, store))
  {
    ScanOrder(lib, q, store);
    RowOrderIsPreorder(q.orderBy, store);
    var rows, le := Matching(lib, q, store), RowOrder(q.orderBy, store.rows);
    forall i, j | 0 <= i < j < |rows| ensures rows[i] != rows[j] {
      assert Before(le, (a: nat, b: nat) => a < b, rows[i], rows[j]);
    }
  }

  /** What remains of a page once deleted rows are dropped is the page of the live rows, exactly when unharmed. */
  lemma LivePageExact(lib: Library, q: Query, store: Store, live: RowSet)
    requires store.Valid() && QueryFits(q, store.types)
    ensures LiveOf(Page(lib, q, store), live) == SliceOf(LiveOf(Matching(lib, q, store), live), q.offset, q.limit) <==>
            PageUnharmed(Matching(lib, q, store), live, q.offset, q.limit)
  {
    MatchingDistinct(lib, q, store);
    TombstonesExact(Matching(lib, q, store), live, q.offset, q.limit);
  }

  /** The output row of a source row. */
  function Projected(q: Query, types: seq<ColumnType>, rows: seq<Row>): nat -> OutputRow
    requires forall i :: 0 <= i < |q.projection| ==> q.projection[i] < |types|
  {
    (r: nat) => if r < |rows| && RowTyped(types, rows[r]) then Project(q, types, rows[r]) else OutputRow([], [])
  }

  lemma PageProjected(lib: Library, q: Query, store: Store, index: Option<Index>)
    requires store.Valid() && QueryFits(q, store.types)
    ensures var page := OfferedPage(lib, q, store, index);
            var out := ProjectAll(q, store, page);
            |out| == |page| && forall i :: 0 <= i < |out| ==> out[i] == Projected(q, store.types, store.rows)(page[i])
  {
    var page := OfferedPage(lib, q, store, index);
    forall i | 0 <= i < |page| ensures page[i] < |store.rows| && RowTyped(store.types, store.rows[page[i]]) {
      assert MatchingRow(lib, q.predicate_, store, page[i]);
    }
  }

  /**
   The page of the offered rows less the deleted ones on it, each row projected; it
   is the page of the full scan if no matching row is lost to a zero.
   */
  method QueryLive(lib: Library, q: Query, store: Store, index: Option<Index>, live: RowSet) returns (res: QueryResult)
    requires store.Valid() && QueryFits(q, store.types)
    requires index.Some? ==> InSync(index.value, store)
    ensures res.sourceRows == LiveOf(OfferedPage(lib, q, store, index), live)
    ensures AllOffered(lib, q.predicate_, store, index) ==> res.sourceRows == LiveOf(Page(lib, q, store), live)
    ensures res.totalMatches == |res.rows| == |res.sourceRows|
    ensures forall i :: 0 <= i < |res.rows| ==> res.rows[i] == Projected(q, store.types, store.rows)(res.sourceRows[i])
  {
    var all := ExecuteQuery(lib, q, store, index);
    PageProjected(lib, q, store, index);
    res := DropTombstones(all, live, Projected(q, store.types, store.rows));
  }
}
