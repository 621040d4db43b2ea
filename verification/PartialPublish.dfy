/**
 Partial publishes: only the supplied columns are written, and the predicate index
 keeps the mutation from every subscription whose filter reads none of them.  That
 is sound for the filter; here is when it is sound for what is ranked and aggregated.
 */
module PartialPublishes {
  import opened Wrappers
  import opened Values
  import opened Predicates
  import opened Bitmaps
  import opened Grouping
  import opened Planner
  import opened Executor
  import opened Windows
  import opened Accumulators
  import opened Aggregation
  import opened Topics
  import PredicateIndexes
  import L = LiveAggregates
  import T = TopN

  /** A subscription with this filter is not shown a mutation of these columns. */
  ghost predicate Skipped(p: Predicate, changed: seq<nat>) {
    !PredicateIndexes.Concerns(map["sub" := p], Some(changed), "sub")
  }

  /** The row a partial publish merges into: the one in the slot, or one of nulls. */
  function Base(store: Store, row: nat): Row { if row < |store.rows| then store.rows[row] else NullRow(store.types) }

  /** Only the supplied columns of one row differ. */
  ghost predicate Supplies(before: Store, store: Store, row: nat, changed: seq<nat>) {
    && before.Valid() && store.Valid() && T.Mutated(before, store, row)
    && forall c: nat :: c < |store.types| && c !in changed ==> Base(before, row)[c] == store.rows[row][c]
  }

  /** The filter decides as before. */
  lemma FilterUnmoved(lib: Library, p: Predicate, before: Store, store: Store, row: nat, changed: seq<nat>)
    requires Supplies(before, store, row, changed) && Fits(p, store.types) && Skipped(p, changed)
    ensures RowTyped(store.types, Base(before, row))
    ensures Matches(lib, p, store.types, store.rows[row]) <==> Matches(lib, p, store.types, Base(before, row))
  {
    PredicateIndexes.NoFalseNegatives(lib, map["sub" := p], changed, "sub", store.types, Base(before, row),
                                      store.rows[row]);
  }

  // ---- limited subscriptions ----

  function Without(p: seq<nat>, i: nat): seq<nat> { if i < |p| then p[..i] + p[i + 1..] else p }

  /** A window is its row, if inside, and the first of the others. */
  lemma WindowOfOthers(p: seq<nat>, i: nat, n: nat)
    requires i < |p| && (forall a, b :: 0 <= a < b < |p| ==> p[a] != p[b])
    ensures Elements(T.Take(p, n)) ==
            if i < n then Elements(T.Take(Without(p, i), n - 1)) + {p[i]} else Elements(T.Take(Without(p, i), n))
  {
    var o := Without(p, i);
    assert forall k :: 0 <= k < |o| ==> o[k] == p[if k < i then k else k + 1];
    forall r: nat ensures r in Elements(T.Take(p, n)) <==>
        r in (if i < n then Elements(T.Take(o, n - 1)) + {p[i]} else Elements(T.Take(o, n))) {
      OthersAt(p, i, n, r);
    }
  }

  lemma OthersAt(p: seq<nat>, i: nat, n: nat, r: nat)
    requires i < |p| && (forall a, b :: 0 <= a < b < |p| ==> p[a] != p[b])
    ensures r in T.Take(p, n) <==>
            if i < n then r == p[i] || r in T.Take(Without(p, i), n - 1) else r in T.Take(Without(p, i), n)
  {
    var o := Without(p, i);
    var w := if i < n then T.Take(o, n - 1) else T.Take(o, n);
    assert forall k :: 0 <= k < |o| ==> o[k] == p[if k < i then k else k + 1];
    if k :| 0 <= k < |p| && p[k] == r {
      assert k < n ==> T.Take(p, n)[k] == r;
      if k < i && k < n { assert w[k] == r; }
      if k > i && k < n { assert w[k - 1] == r; }
    }
  }

  /** The window, given the ranking of the rows other than `row`. */
  lemma TopByOthers(lib: Library, q: Query, store: Store, row: nat, o: seq<nat>, n: nat)
    requires store.Valid() && QueryFits(q, store.types)
    requires SortedPartition(o, T.MatchingSet(lib, q, store) - {row}, T.RankOrder(q.orderBy, store.rows))
    ensures var top := T.TopRows(lib, q, store, n);
            && (row in top ==> n > 0 && top == Elements(T.Take(o, n - 1)) + {row})
            && (row !in top ==> top == Elements(T.Take(o, n)))
  {
    var p := T.RankingExists(lib, q, store);
    var peers, le := T.MatchingSet(lib, q, store), T.RankOrder(q.orderBy, store.rows);
    T.TakeIsTop(lib, q, store, p, n);
    if row in peers {
      assert row in p;
      var i :| 0 <= i < |p| && p[i] == row;
      PartitionDistinct(p, peers, le);
      T.RemoveSorted(p, peers, le, i);
      T.PartitionUnique(o, Without(p, i), peers - {row}, le);
      WindowOfOthers(p, i, n);
      OthersAt(p, i, n, row);
      assert row !in Elements(o);
    } else {
      assert peers - {row} == peers;
      T.PartitionUnique(o, p, peers, le);
    }
  }

  /** The other rows are ranked as before. */
  lemma OthersRankedAlike(lib: Library, q: Query, before: Store, store: Store, row: nat) returns (o: seq<nat>)
    requires before.Valid() && store.Valid() && QueryFits(q, store.types) && T.Mutated(before, store, row)
    ensures SortedPartition(o, T.MatchingSet(lib, q, store) - {row}, T.RankOrder(q.orderBy, store.rows))
    ensures SortedPartition(o, T.MatchingSet(lib, q, before) - {row}, T.RankOrder(q.orderBy, before.rows))
  {
    var peers, le, le' := T.MatchingSet(lib, q, store), T.RankOrder(q.orderBy, store.rows),
        T.RankOrder(q.orderBy, before.rows);
    var p := T.RankingExists(lib, q, store);
    if row in peers {
      assert row in p;
      var i :| 0 <= i < |p| && p[i] == row;
      T.RemoveSorted(p, peers, le, i);
      o := Without(p, i);
    } else {
      assert peers - {row} == peers;
      o := p;
    }
    T.MatchingAfter(lib, q, before, store, row);
    assert T.MatchingSet(lib, q, before) - {row} == peers - {row};
    T.RankOrderIsPreorder(q.orderBy, before);
    T.Reordered(o, peers - {row}, le, le');
  }

  lemma ShownSame<D>(was: set<nat>, now: set<nat>, row: nat, body: nat -> D, body': nat -> D)
    requires (row in was <==> row in now) ==> was == now
    requires forall r: nat :: r in was && r != row ==> body(r) == body'(r)
    ensures T.Shown(now, body') == T.Shown(was, body) <==>
            (row in was <==> row in now) && (row in now ==> body(row) == body'(row))
  {
    var v, v' := T.Shown(was, body), T.Shown(now, body');
    assert v.Keys == was && v'.Keys == now;
    if row in now && v == v' { assert v[row] == body(row) && v'[row] == body'(row); }
  }

  /**
   A mutation leaves what the subscriber should see as it was exactly if the row is
   in the window before and after, or neither, and looks the same if it is.
   */
  lemma WindowUnmoved(lib: Library, q: Query, before: Store, store: Store, row: nat)
    requires before.Valid() && store.Valid() && QueryFits(q, store.types) && T.Mutated(before, store, row)
             && q.limit.Some?
    ensures var was, now := T.TopRows(lib, q, before, q.limit.value), T.TopRows(lib, q, store, q.limit.value);
            T.TopView(lib, q, store) == T.TopView(lib, q, before) <==>
            (row in was <==> row in now) && (row in now ==> T.Body(q, before)(row) == T.Body(q, store)(row))
  {
    var n := q.limit.value;
    var was, now := T.TopRows(lib, q, before, n), T.TopRows(lib, q, store, n);
    var o := OthersRankedAlike(lib, q, before, store, row);
    TopByOthers(lib, q, before, row, o, n);
    TopByOthers(lib, q, store, row, o, n);
    T.BodyFrame(lib, q, before, store, row);
    ShownSame(was, now, row, T.Body(q, before), T.Body(q, store));
  }

  /** The cells ORDER BY reads are unchanged, or the row is not ranked at all. */
  ghost predicate RankUnmoved(lib: Library, q: Query, before: Store, store: Store, row: nat)
    requires store.Valid() && QueryFits(q, store.types) && RowTyped(store.types, Base(before, row))
             && row < |store.rows|
  {
    || !Matches(lib, q.predicate_, store.types, Base(before, row))
    || (row < |before.rows| && T.KeyValues(q.orderBy, before.rows[row]) == T.KeyValues(q.orderBy, store.rows[row]))
  }

  /** A limited subscription that is not shown the mutation keeps a right ranking exactly then. */
  lemma RankingSkipsExactly(lib: Library, q: Query, before: Store, store: Store, row: nat, changed: seq<nat>,
                            ranked: seq<T.Entry>, rowToKey: map<nat, seq<Value>>)
    requires Supplies(before, store, row, changed) && QueryFits(q, store.types) && Skipped(q.predicate_, changed)
    requires T.RankedAs(q.orderBy, before.rows, ranked, rowToKey, T.MatchingSet(lib, q, before))
    ensures RowTyped(store.types, Base(before, row))
    ensures T.RankedAs(q.orderBy, store.rows, ranked, rowToKey, T.MatchingSet(lib, q, store)) <==>
            RankUnmoved(lib, q, before, store, row)
  {
    FilterUnmoved(lib, q.predicate_, before, store, row, changed);
    var peers, peers' := T.MatchingSet(lib, q, before), T.MatchingSet(lib, q, store);
    T.MatchingAfter(lib, q, before, store, row);
    if !Matches(lib, q.predicate_, store.types, Base(before, row)) {
      assert row !in peers && peers - {row} == peers && peers' == peers;
      T.RankFrame(q.orderBy, before, store, row, ranked, rowToKey, peers);
    } else if row < |before.rows|
      && T.KeyValues(q.orderBy, before.rows[row]) == T.KeyValues(q.orderBy, store.rows[row]) {
      assert row in peers && peers' == peers;
      SameKeysSameRanking(q.orderBy, before, store, row, ranked, rowToKey, peers);
    } else if row < |before.rows| {
      assert row in peers && row in peers';
      assert rowToKey[row] == T.KeyValues(q.orderBy, before.rows[row]);
    } else {
      assert row !in peers && row in peers';
    }
  }

  lemma SameKeysSameRanking(order: seq<SortKey>, before: Store, store: Store, row: nat, ranked: seq<T.Entry>,
                            rowToKey: map<nat, seq<Value>>, peers: set<nat>)
    requires T.Mutated(before, store, row) && store.Valid() && KeysFit(order, store.types) && row < |before.rows|
    requires T.KeyValues(order, before.rows[row]) == T.KeyValues(order, store.rows[row])
    requires T.RankedAs(order, before.rows, ranked, rowToKey, peers)
    ensures T.RankedAs(order, store.rows, ranked, rowToKey, peers)
  {
    var p := T.SlotsOf(ranked);
    forall r: nat | r < |store.rows|
      ensures r < |before.rows| && T.KeyValues(order, store.rows[r]) == T.KeyValues(order, before.rows[r])
    {
      var cells := store.rows[r];
    }
    T.RankOrderIsPreorder(order, store);
    T.Reordered(p, peers, T.RankOrder(order, before.rows), T.RankOrder(order, store.rows));
  }

  // ---- continuous aggregates ----

  /** The membership maps and the emitted rows are those of the table. */
  ghost predicate InStep(rt: Runtime, q: AggQuery, names: seq<string>, store: Store, live: RowSet,
                         groupRows: map<string, RowSet>, rowGroup: map<nat, string>, view: L.View)
    requires Comparable(rt, q, names, store)
  {
    && Membership(rt, q, names, store, Some(live), groupRows, rowGroup)
    && L.Shows(view, groupRows, L.Shown(rt, q, names, store))
  }

  /** The row keeps its group, and the group still aggregates to the row last emitted. */
  ghost predicate GroupUnmoved(rt: Runtime, q: AggQuery, names: seq<string>, before: Store, store: Store, row: nat,
                               groupRows: map<string, RowSet>)
    requires Comparable(rt, q, names, before) && Comparable(rt, q, names, store)
  {
    var k := CanonicalKey(rt, q, names, before)(row);
    && CanonicalKey(rt, q, names, store)(row) == k
    && L.ShownAt(groupRows, L.Shown(rt, q, names, store), k) == L.ShownAt(groupRows, L.Shown(rt, q, names, before), k)
  }

  lemma MutatedAlike(before: Store, store: Store, row: nat)
    requires T.Mutated(before, store, row)
    ensures L.Mutated(before, store, row)
  {
    forall r: nat | r != row ensures L.RowAt(store, r) == L.RowAt(before, r) {
      if r < |store.rows| { var cells := store.rows[r]; }
    }
  }

  /** Which rows are members, before and after. */
  lemma MembersAfter(rt: Runtime, q: AggQuery, before: Store, store: Store, row: nat, changed: seq<nat>, live: RowSet)
    requires Supplies(before, store, row, changed) && AggFits(q, store.types) && Skipped(q.predicate_, changed)
    requires row in live ==> row < |before.rows|
    ensures RowTyped(store.types, Base(before, row))
    ensures var rows, rows' := RowsIn(MatchesOf(rt, q, before, Some(live))),
                RowsIn(MatchesOf(rt, q, store, Some(live + {row})));
            if Matches(rt.lib, q.predicate_, store.types, Base(before, row))
            then (row in rows <==> row in live) && rows' == rows + {row}
            else rows' == rows && row !in rows
  {
    FilterUnmoved(rt.lib, q.predicate_, before, store, row, changed);
    MutatedAlike(before, store, row);
    L.MatchesFrame(rt, q, before, store, row, L.Upsert, live);
    LiveMatchesAre(rt.lib, q.predicate_, before, Some(live));
    var rows := RowsIn(MatchesOf(rt, q, before, Some(live)));
    assert row in rows <==> MatchingRow(rt.lib, q.predicate_, before, row) && row in live;
    assert row !in rows ==> rows - {row} == rows;
  }

  /** Keys and shown rows that differ only through `row`. */
  ghost predicate DifferAt(canon: nat -> string, canon': nat -> string, shown: RowSet -> Option<RowMap>,
                           shown': RowSet -> Option<RowMap>, row: nat) {
    && (forall r: nat :: r != row ==> canon'(r) == canon(r))
    && (forall members :: row !in members ==> shown'(members) == shown(members))
  }

  lemma KeysSame(groupRows: map<string, RowSet>, rowGroup: map<nat, string>, rows: set<nat>,
                 canon: nat -> string, canon': nat -> string, row: nat)
    requires MembershipOf(groupRows, rowGroup, rows, canon) && forall r: nat :: r != row ==> canon'(r) == canon(r)
    ensures MembershipOf(groupRows, rowGroup, rows, canon') <==> (row in rows ==> canon'(row) == canon(row))
  {
  }

  lemma GroupsSame(groupRows: map<string, RowSet>, rowGroup: map<nat, string>, rows: set<nat>, canon: nat -> string,
                   shown: RowSet -> Option<RowMap>, shown': RowSet -> Option<RowMap>, row: nat, view: L.View)
    requires MembershipOf(groupRows, rowGroup, rows, canon) && L.Shows(view, groupRows, shown)
    requires forall members :: row !in members ==> shown'(members) == shown(members)
    ensures L.Shows(view, groupRows, shown') <==>
            (row in rows ==> L.ShownAt(groupRows, shown', canon(row)) == L.ShownAt(groupRows, shown, canon(row)))
  {
    forall k | !(row in rows && canon(row) == k)
      ensures L.ShownAt(groupRows, shown', k) == L.ShownAt(groupRows, shown, k)
    {
      if k in groupRows { assert row !in groupRows[k]; }
    }
    forall k ensures L.Lookup(view, k) == L.ShownAt(groupRows, shown, k) {
    }
    if row in rows && L.Shows(view, groupRows, shown') {
      assert L.Lookup(view, canon(row)) == L.ShownAt(groupRows, shown', canon(row));
    }
  }

  lemma DifferAtRow(rt: Runtime, q: AggQuery, names: seq<string>, before: Store, store: Store, row: nat)
    requires Comparable(rt, q, names, before) && Comparable(rt, q, names, store) && L.Mutated(before, store, row)
    ensures DifferAt(CanonicalKey(rt, q, names, before), CanonicalKey(rt, q, names, store),
                     L.Shown(rt, q, names, before), L.Shown(rt, q, names, store), row)
  {
    forall r: nat | r != row ensures CanonicalKey(rt, q, names, store)(r) == CanonicalKey(rt, q, names, before)(r) {
      L.KeyFrame(rt, q, names, before, store, row, r);
    }
    forall members: RowSet | row !in members
      ensures L.Shown(rt, q, names, store)(members) == L.Shown(rt, q, names, before)(members)
    {
      L.ShownFrame(rt, q, names, before, store, row, members);
    }
  }

  lemma LateMember(groupRows: map<string, RowSet>, rowGroup: map<nat, string>, rows: set<nat>, canon: nat -> string,
                   canon': nat -> string, row: nat)
    requires MembershipOf(groupRows, rowGroup, rows, canon) && row !in rows
    ensures !MembershipOf(groupRows, rowGroup, rows + {row}, canon')
  {
    assert row !in rowGroup;
  }

  lemma SkipsExactly(groupRows: map<string, RowSet>, rowGroup: map<nat, string>, rows: set<nat>, canon: nat -> string,
                     canon': nat -> string, shown: RowSet -> Option<RowMap>, shown': RowSet -> Option<RowMap>, row: nat,
                     view: L.View, matches: bool, lived: bool, rows': set<nat>)
    requires MembershipOf(groupRows, rowGroup, rows, canon) && L.Shows(view, groupRows, shown)
    requires DifferAt(canon, canon', shown, shown', row)
    requires if matches then (row in rows <==> lived) && rows' == rows + {row} else rows' == rows && row !in rows
    ensures MembershipOf(groupRows, rowGroup, rows', canon') && L.Shows(view, groupRows, shown') <==>
            || !matches
            || (lived && canon'(row) == canon(row)
                && L.ShownAt(groupRows, shown', canon(row)) == L.ShownAt(groupRows, shown, canon(row)))
  {
    KeysSame(groupRows, rowGroup, rows, canon, canon', row);
    GroupsSame(groupRows, rowGroup, rows, canon, shown, shown', row, view);
    if row in rows {
      assert rows + {row} == rows;
    } else {
      LateMember(groupRows, rowGroup, rows, canon, canon', row);
    }
  }

  /**
   A continuous aggregate that is not shown the mutation stays in step exactly if
   the row does not match, or was a member already, keeps its group, and the group
   aggregates to what it did.
   */
  lemma AggregateSkipsExactly(rt: Runtime, q: AggQuery, names: seq<string>, before: Store, store: Store, row: nat,
                              changed: seq<nat>, live: RowSet, groupRows: map<string, RowSet>,
                              rowGroup: map<nat, string>,
                              view: L.View)
    requires Comparable(rt, q, names, before) && Comparable(rt, q, names, store)
    requires Supplies(before, store, row, changed) && Skipped(q.predicate_, changed)
             && (row in live ==> row < |before.rows|)
    requires InStep(rt, q, names, before, live, groupRows, rowGroup, view)
    ensures RowTyped(store.types, Base(before, row))
    ensures InStep(rt, q, names, store, live + {row}, groupRows, rowGroup, view) <==>
            || !Matches(rt.lib, q.predicate_, store.types, Base(before, row))
            || (row in live && GroupUnmoved(rt, q, names, before, store, row, groupRows))
  {
    MembersAfter(rt, q, before, store, row, changed, live);
    MutatedAlike(before, store, row);
    DifferAtRow(rt, q, names, before, store, row);
    SkipsExactly(groupRows, rowGroup, RowsIn(MatchesOf(rt, q, before, Some(live))), CanonicalKey(rt, q, names, before),
                 CanonicalKey(rt, q, names, store), L.Shown(rt, q, names, before), L.Shown(rt, q, names, store), row,
                 view,
                 Matches(rt.lib, q.predicate_, store.types, Base(before, row)), row in live,
                 RowsIn(MatchesOf(rt, q, store, Some(live + {row}))));
  }

  /** No supplied column is grouped by or fed to an aggregate. */
  ghost predicate Unread(q: AggQuery, changed: seq<nat>) {
    && (forall i :: 0 <= i < |q.groupBy| ==> q.groupBy[i] !in changed)
    && forall i :: 0 <= i < |q.aggregates| ==>
         && (q.aggregates[i].col.Some? ==> q.aggregates[i].col.value !in changed)
         && (q.aggregates[i].expr.Some? ==> forall c :: c in changed ==>
             c !in NumExprColumns(q.aggregates[i].expr.value))
  }

  lemma InputsUnmoved(rt: Runtime, q: AggQuery, before: Store, store: Store, row: nat, changed: seq<nat>, i: nat)
    requires Supplies(before, store, row, changed) && AggFits(q, store.types) && Unread(q, changed)
    requires row < |before.rows| && i < |q.aggregates|
    ensures InputOf(rt, q.aggregates[i], store.types, before.rows[row]) ==
            InputOf(rt, q.aggregates[i], store.types, store.rows[row])
  {
    var spec := q.aggregates[i];
    if spec.expr.Some? {
      assert AgreeOn(NumExprColumns(spec.expr.value), before.rows[row], store.rows[row]);
      NumExprFrame(rt.lib, spec.expr.value, store.types, before.rows[row], store.rows[row]);
    }
  }

  lemma StepsUnmoved(rt: Runtime, q: AggQuery, before: Store, store: Store, row: nat, changed: seq<nat>,
                     s: seq<AggState>, r: nat)
    requires Supplies(before, store, row, changed) && AggFits(q, store.types) && Unread(q, changed)
             && row < |before.rows|
    ensures StepOf(rt, q, store.types, before.rows)(s, r) == StepOf(rt, q, store.types, store.rows)(s, r)
    ensures RowKey(rt, q, store.types, before.rows)(r) == RowKey(rt, q, store.types, store.rows)(r)
  {
    MutatedAlike(before, store, row);
    if r == row {
      if |s| == |q.aggregates| {
        forall i | 0 <= i < |s|
          ensures InputOf(rt, q.aggregates[i], store.types, before.rows[r]) ==
                  InputOf(rt, q.aggregates[i], store.types, store.rows[r])
        {
          InputsUnmoved(rt, q, before, store, row, changed, i);
        }
        assert Absorbed(rt, q, store.types, s, before.rows[r]) == Absorbed(rt, q, store.types, s, store.rows[r]);
      }
      assert KeyOf(q.groupBy, before.rows[r]) == KeyOf(q.groupBy, store.rows[r]);
    } else {
      assert L.RowAt(store, r) == L.RowAt(before, r);
    }
  }

  /** If the query reads no supplied column, the group is unmoved. */
  lemma UnreadKeepsGroup(rt: Runtime, q: AggQuery, names: seq<string>, before: Store, store: Store, row: nat,
                         changed: seq<nat>,
                         groupRows: map<string, RowSet>)
    requires Comparable(rt, q, names, before) && Comparable(rt, q, names, store)
    requires Supplies(before, store, row, changed) && Unread(q, changed) && row < |before.rows|
    ensures GroupUnmoved(rt, q, names, before, store, row, groupRows)
  {
    StepsUnmoved(rt, q, before, store, row, changed, [], row);
    var k := CanonicalKey(rt, q, names, before)(row);
    if k in groupRows && groupRows[k] != {} {
      var rows := Ascending(groupRows[k]);
      assert |rows| == |groupRows[k]| > 0;
      KeyLength(rt, q, before, rows[0]);
      StepsUnmoved(rt, q, before, store, row, changed, [], rows[0]);
      var step, step' := StepOf(rt, q, before.types, before.rows), StepOf(rt, q, store.types, store.rows);
      forall s: seq<AggState>, r: nat | r in rows ensures step(s, r) == step'(s, r) {
        StepsUnmoved(rt, q, before, store, row, changed, s, r);
      }
      L.FoldFrame(InitStates(q, store.types), step, step', rows);
    }
  }

  // ---- instances ----

  const Pair: seq<ColumnType> := [IntType, IntType]

  const ByB: AggQuery := AggQuery(IsNotNull(0), [1], [], None, [], [], None)

  function OneRow(b: I32): Store { Store(Pair, [[Int(1), Int(b)]]) }

  /** Ordered by a column the filter does not read: the ranking goes stale. */
  lemma OrderingUpdateIsSkipped(lib: Library)
    ensures var q := Query(IsNotNull(0), [SortKey(1, true)], None, Some(1), [], []);
            var before, store := OneRow(1), OneRow(2);
            && Supplies(before, store, 0, [1]) && QueryFits(q, Pair) && Skipped(q.predicate_, [1])
            && !RankUnmoved(lib, q, before, store, 0)
  {
    var order := [SortKey(1, true)];
    assert T.KeyValues(order, [Int(1), Int(1)])[0] == Int(1) && T.KeyValues(order, [Int(1), Int(2)])[0] == Int(2);
  }

  lemma OnlySecondSupplied()
    ensures Supplies(OneRow(1), OneRow(2), 0, [1]) && AggFits(ByB, Pair) && Skipped(ByB.predicate_, [1])
  {
  }

  /** Grouped by a column the filter does not read: the row stays in its old group. */
  lemma GroupMoveIsSkipped(rt: Runtime)
    requires Injective(rt.serialize)
    ensures Supplies(OneRow(1), OneRow(2), 0, [1]) && AggFits(ByB, Pair) && Skipped(ByB.predicate_, [1])
    ensures CanonicalKey(rt, ByB, ["a", "b"], OneRow(1))(0) != CanonicalKey(rt, ByB, ["a", "b"], OneRow(2))(0)
  {
    OnlySecondSupplied();
    CanonicalOfOne(rt, ByB, OneRow(1), 1);
    CanonicalOfOne(rt, ByB, OneRow(2), 2);
    assert [("b", JInt(1))][0] != [("b", JInt(2))][0];
  }

  lemma CanonicalOfOne(rt: Runtime, q: AggQuery, store: Store, i: I32)
    requires q.groupBy == [1] && AggFits(q, Pair) && store == OneRow(i) && i != NULL_INT
    ensures CanonicalKey(rt, q, ["a", "b"], store)(0) == rt.serialize([("b", JInt(i))])
  {
    assert RowKey(rt, q, Pair, store.rows)(0) == [IntPart(i)];
    assert GroupNames(q, ["a", "b"]) == ["b"];
    var key: GroupKey, m := [IntPart(i)], KeyColumns(rt, ["b"], [IntPart(i)], 1);
    assert KeyColumns(rt, ["b"], key, 0) == map[] && key[1 - 1] == IntPart(i);
    assert m == map["b" := JInt(i)];
    var pairs := seq(1, j requires 0 <= j < 1 => (["b"][j], if ["b"][j] in m then m[["b"][j]] else JNull));
    assert pairs == [("b", JInt(i))];
  }
}
