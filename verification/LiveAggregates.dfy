/**
 Continuous aggregates: a subscription keeps the last emitted row of every group
 and recomputes, after each mutation, only the group the row left and the group
 it joined.
 */
module LiveAggregates {
  import opened Wrappers
  import opened Orders
  import opened Values
  import opened Predicates
  import opened SecIndex
  import opened Planner
  import opened Bitmaps
  import opened Grouping
  import opened Accumulators
  import opened Aggregation

  type View = map<string, RowMap>

  // ---- the result of the executor as a view ----

  /** One entry for each canonical key of `rows`, holding one of the rows with that key. */
  ghost predicate IsView(view: View, rows: seq<RowMap>, canonOf: RowMap -> string) {
    && (forall row :: row in rows ==> canonOf(row) in view)
    && (forall k :: k in view ==> view[k] in rows && canonOf(view[k]) == k)
  }

  method SeedView(rt: Runtime, groupNames: seq<string>, rows: seq<RowMap>) returns (view: View)
    ensures IsView(view, rows, CanonOf(rt, groupNames))
  {
    view := map[];
    ghost var canonOf := CanonOf(rt, groupNames);
    for i := 0 to |rows|
      invariant IsView(view, rows[..i], canonOf)
    {
      assert rows[..i + 1] == rows[..i] + [rows[i]];
      view := view[CanonicalOf(rt, groupNames, rows[i]) := rows[i]];
    }
    assert rows[..|rows|] == rows;
  }

  /** The row of a group, `None` for the empty group and for one that HAVING drops. */
  ghost function Shown(rt: Runtime, q: AggQuery, names: seq<string>, store: Store): RowSet -> Option<RowMap>
    requires AggFits(q, store.types) && |names| == |store.types|
  {
    (members: RowSet) => if members == {} then None else OneGroup(rt, q, names, store, members)
  }

  function Lookup<K, V>(m: map<K, V>, k: K): Option<V> { if k in m then Some(m[k]) else None }

  ghost function ShownAt(groupRows: map<string, RowSet>, shown: RowSet -> Option<RowMap>, k: string): Option<RowMap> {
    if k in groupRows then shown(groupRows[k]) else None
  }

  /** The view holds exactly the groups that show a row, but for the keys in `pending`. */
  ghost predicate ShowsBut(view: View, groupRows: map<string, RowSet>, shown: RowSet -> Option<RowMap>,
                           pending: seq<string>)
  {
    forall k :: k !in pending ==> Lookup(view, k) == ShownAt(groupRows, shown, k)
  }

  ghost predicate Shows(view: View, groupRows: map<string, RowSet>, shown: RowSet -> Option<RowMap>) {
    ShowsBut(view, groupRows, shown, [])
  }

  /** The executor emits a row exactly when the key of some live matching row makes it. */
  lemma FullRowsAre(rt: Runtime, q: AggQuery, names: seq<string>, store: Store, rows: seq<nat>, row: RowMap)
    requires AggFits(q, store.types) && |names| == |store.types| && q.groupBy != []
    ensures row in FullRows(rt, q, names, store, rows) <==>
            exists r: nat :: r in rows &&
              RowFor(rt, q, names, store, rows)(RowKey(rt, q, store.types, store.rows)(r)) == Some(row)
  {
    CollectGroups(rows, RowKey(rt, q, store.types, store.rows), RowFor(rt, q, names, store, rows), row);
  }

  function CanonOf(rt: Runtime, groupNames: seq<string>): RowMap -> string {
    (m: RowMap) => CanonicalOf(rt, groupNames, m)
  }

  /** The hypotheses under which the incremental and the full path are compared. */
  ghost predicate Agreeable(rt: Runtime, q: AggQuery, names: seq<string>, store: Store, live: Option<RowSet>) {
    && Comparable(rt, q, names, store)
    && KeysVisible(q, GroupNames(q, names))
    && q.groupBy != []
    && ClashFree(RowKey(rt, q, store.types, store.rows), MatchesOf(rt, q, store, live))
  }

  /** The group of a row: what it shows is what the executor makes for the row's key. */
  lemma GroupOfRow(rt: Runtime, q: AggQuery, names: seq<string>, store: Store, live: Option<RowSet>,
                   groupRows: map<string, RowSet>, rowGroup: map<nat, string>, r: nat)
    requires Agreeable(rt, q, names, store, live) && Membership(rt, q, names, store, live, groupRows, rowGroup)
    requires r in MatchesOf(rt, q, store, live)
    ensures var k := CanonicalKey(rt, q, names, store)(r);
            var made := RowFor(rt, q, names, store,
                               MatchesOf(rt, q, store, live))(RowKey(rt, q, store.types, store.rows)(r));
            && k in groupRows && r in groupRows[k]
            && Shown(rt, q, names, store)(groupRows[k]) == made
            && (made.Some? ==> CanonicalOf(rt, GroupNames(q, names), made.value) == k)
  {
    var rows, k := MatchesOf(rt, q, store, live), CanonicalKey(rt, q, names, store)(r);
    assert r in RowsIn(rows);
    assert r in rowGroup && rowGroup[r] == k;
    GroupsInLockstep(rt, q, names, store, live, groupRows, rowGroup, k, r);
    MatchesInside(rt, q, store, live, r);
    var keyOf := RowKey(rt, q, store.types, store.rows);
    GroupRowCanonical(rt, q, names, store, r, Members(rows, keyOf, keyOf(r)));
  }

  lemma RowHasGroup(rt: Runtime, q: AggQuery, names: seq<string>, store: Store, live: Option<RowSet>,
                    groupRows: map<string, RowSet>, rowGroup: map<nat, string>, row: RowMap) returns (k: string)
    requires Agreeable(rt, q, names, store, live) && Membership(rt, q, names, store, live, groupRows, rowGroup)
    requires row in FullRows(rt, q, names, store, MatchesOf(rt, q, store, live))
    ensures k == CanonOf(rt, GroupNames(q, names))(row)
    ensures k in groupRows && Shown(rt, q, names, store)(groupRows[k]) == Some(row)
  {
    var rows := MatchesOf(rt, q, store, live);
    FullRowsAre(rt, q, names, store, rows, row);
    var r: nat :| r in rows
      && RowFor(rt, q, names, store, rows)(RowKey(rt, q, store.types, store.rows)(r)) == Some(row);
    GroupOfRow(rt, q, names, store, live, groupRows, rowGroup, r);
    k := CanonicalKey(rt, q, names, store)(r);
  }

  lemma GroupHasRow(rt: Runtime, q: AggQuery, names: seq<string>, store: Store, live: Option<RowSet>,
                    groupRows: map<string, RowSet>, rowGroup: map<nat, string>, k: string, row: RowMap)
    requires Agreeable(rt, q, names, store, live) && Membership(rt, q, names, store, live, groupRows, rowGroup)
    requires k in groupRows && Shown(rt, q, names, store)(groupRows[k]) == Some(row)
    ensures row in FullRows(rt, q, names, store, MatchesOf(rt, q, store, live))
    ensures CanonOf(rt, GroupNames(q, names))(row) == k
  {
    var rows := MatchesOf(rt, q, store, live);
    var r :| r in groupRows[k];
    SameBitmap(groupRows, rowGroup, RowsIn(rows), CanonicalKey(rt, q, names, store), k, r, r);
    GroupOfRow(rt, q, names, store, live, groupRows, rowGroup, r);
    FullRowsAre(rt, q, names, store, rows, row);
  }

  ghost predicate RowsHaveGroups(groupRows: map<string, RowSet>, shown: RowSet -> Option<RowMap>, full: seq<RowMap>,
                                 canonOf: RowMap -> string) {
    forall row :: row in full ==> canonOf(row) in groupRows && shown(groupRows[canonOf(row)]) == Some(row)
  }

  ghost predicate GroupsHaveRows(groupRows: map<string, RowSet>, shown: RowSet -> Option<RowMap>, full: seq<RowMap>,
                                 canonOf: RowMap -> string) {
    forall k :: k in groupRows && shown(groupRows[k]).Some? ==>
      shown(groupRows[k]).value in full && canonOf(shown(groupRows[k]).value) == k
  }

  lemma AllRowsHaveGroups(rt: Runtime, q: AggQuery, names: seq<string>, store: Store, live: Option<RowSet>,
                          groupRows: map<string, RowSet>, rowGroup: map<nat, string>)
    requires Agreeable(rt, q, names, store, live) && Membership(rt, q, names, store, live, groupRows, rowGroup)
    ensures RowsHaveGroups(groupRows, Shown(rt, q, names, store),
                           FullRows(rt, q, names, store, MatchesOf(rt, q, store, live)),
                           CanonOf(rt, GroupNames(q, names)))
  {
    var canonOf := CanonOf(rt, GroupNames(q, names));
    forall row | row in FullRows(rt, q, names, store, MatchesOf(rt, q, store, live))
      ensures canonOf(row) in groupRows && Shown(rt, q, names, store)(groupRows[canonOf(row)]) == Some(row)
    {
      var k := RowHasGroup(rt, q, names, store, live, groupRows, rowGroup, row);
    }
  }

  lemma AllGroupsHaveRows(rt: Runtime, q: AggQuery, names: seq<string>, store: Store, live: Option<RowSet>,
                          groupRows: map<string, RowSet>, rowGroup: map<nat, string>)
    requires Agreeable(rt, q, names, store, live) && Membership(rt, q, names, store, live, groupRows, rowGroup)
    ensures GroupsHaveRows(groupRows, Shown(rt, q, names, store),
                           FullRows(rt, q, names, store, MatchesOf(rt, q, store, live)),
                           CanonOf(rt, GroupNames(q, names)))
  {
    var shown := Shown(rt, q, names, store);
    forall k | k in groupRows && shown(groupRows[k]).Some?
      ensures shown(groupRows[k]).value in FullRows(rt, q, names, store, MatchesOf(rt, q, store, live))
      ensures CanonOf(rt, GroupNames(q, names))(shown(groupRows[k]).value) == k
    {
      GroupHasRow(rt, q, names, store, live, groupRows, rowGroup, k, shown(groupRows[k]).value);
    }
  }

  lemma ViewsCorrespond(view: View, groupRows: map<string, RowSet>, shown: RowSet -> Option<RowMap>,
                        full: seq<RowMap>, canonOf: RowMap -> string)
    requires RowsHaveGroups(groupRows, shown, full, canonOf) && GroupsHaveRows(groupRows, shown, full, canonOf)
    ensures Shows(view, groupRows, shown) <==> IsView(view, full, canonOf)
  {
    if Shows(view, groupRows, shown) {
      forall row | row in full ensures canonOf(row) in view {
        assert Lookup(view, canonOf(row)) == ShownAt(groupRows, shown, canonOf(row));
      }
      forall k | k in view ensures view[k] in full && canonOf(view[k]) == k {
        assert Lookup(view, k) == ShownAt(groupRows, shown, k);
      }
    }
  }

  /**
   A view shows exactly the groups of the membership maps if and only if it is
   the view of what the full executor returns.
   */
  lemma ViewIsFullResult(rt: Runtime, q: AggQuery, names: seq<string>, store: Store, live: Option<RowSet>,
                         groupRows: map<string, RowSet>, rowGroup: map<nat, string>, view: View)
    requires Agreeable(rt, q, names, store, live) && Membership(rt, q, names, store, live, groupRows, rowGroup)
    ensures Shows(view, groupRows, Shown(rt, q, names, store)) <==>
            IsView(view, FullRows(rt, q, names, store, MatchesOf(rt, q, store, live)),
                   CanonOf(rt, GroupNames(q, names)))
  {
    AllRowsHaveGroups(rt, q, names, store, live, groupRows, rowGroup);
    AllGroupsHaveRows(rt, q, names, store, live, groupRows, rowGroup);
    ViewsCorrespond(view, groupRows, Shown(rt, q, names, store),
                    FullRows(rt, q, names, store, MatchesOf(rt, q, store, live)), CanonOf(rt, GroupNames(q, names)));
  }

  /** So there is one such view. */
  lemma FullViewUnique(rt: Runtime, q: AggQuery, names: seq<string>, store: Store, live: Option<RowSet>,
                       groupRows: map<string, RowSet>, rowGroup: map<nat, string>, a: View, b: View)
    requires Agreeable(rt, q, names, store, live) && Membership(rt, q, names, store, live, groupRows, rowGroup)
    requires IsView(a, FullRows(rt, q, names, store, MatchesOf(rt, q, store, live)), CanonOf(rt, GroupNames(q, names)))
    requires IsView(b, FullRows(rt, q, names, store, MatchesOf(rt, q, store, live)), CanonOf(rt, GroupNames(q, names)))
    ensures a == b
  {
    var shown := Shown(rt, q, names, store);
    ViewIsFullResult(rt, q, names, store, live, groupRows, rowGroup, a);
    ViewIsFullResult(rt, q, names, store, live, groupRows, rowGroup, b);
    ShowsDetermines(a, b, groupRows, shown);
  }

  lemma ShowsDetermines(a: View, b: View, groupRows: map<string, RowSet>, shown: RowSet -> Option<RowMap>)
    requires Shows(a, groupRows, shown) && Shows(b, groupRows, shown)
    ensures a == b
  {
    forall k ensures (k in a <==> k in b) && (k in a ==> a[k] == b[k]) {
      assert Lookup(a, k) == ShownAt(groupRows, shown, k);
      assert Lookup(b, k) == ShownAt(groupRows, shown, k);
    }
    assert a.Keys == b.Keys;
  }

  // ---- moving one row between groups ----

  function Dropped(groupRows: map<string, RowSet>, key: string, row: nat): map<string, RowSet> {
    if key !in groupRows then groupRows
    else if groupRows[key] - {row} == {} then groupRows - {key}
    else groupRows[key := groupRows[key] - {row}]
  }

  function Joined(groupRows: map<string, RowSet>, key: string, row: nat): map<string, RowSet> {
    groupRows[key := (if key in groupRows then groupRows[key] else {}) + {row}]
  }

  function Placed(rowGroup: map<nat, string>, row: nat, key: Option<string>): map<nat, string> {
    if key.Some? then rowGroup[row := key.value] else rowGroup - {row}
  }

  ghost function RowsAfter(rows: set<nat>, row: nat, key: Option<string>): set<nat> {
    if key.Some? then rows + {row} else rows - {row}
  }

  /** The canonical keys after a change to `row`, whose new key, if it stays a member, is `key`. */
  ghost predicate Rekeyed(rows: set<nat>, canon: nat -> string, canon': nat -> string, row: nat, key: Option<string>) {
    && (forall r: nat :: r in rows && r != row ==> canon'(r) == canon(r))
    && (key.Some? ==> canon'(row) == key.value)
  }

  lemma DropMember(groupRows: map<string, RowSet>, rowGroup: map<nat, string>, rows: set<nat>, canon: nat -> string,
                   canon': nat -> string, row: nat)
    requires MembershipOf(groupRows, rowGroup, rows, canon) && Rekeyed(rows, canon, canon', row, None)
    ensures MembershipOf(if row in rowGroup then Dropped(groupRows, rowGroup[row], row) else groupRows,
                         rowGroup - {row}, rows - {row}, canon')
  {
  }

  ghost predicate SameElsewhere(groupRows: map<string, RowSet>, groupRows': map<string, RowSet>, dirty: seq<string>,
                                row: nat)
  {
    forall k :: k !in dirty ==>
      Lookup(groupRows', k) == Lookup(groupRows, k) && (k in groupRows ==> row !in groupRows[k])
  }

  /** Membership after the row has left its old group and joined its new one. */
  lemma MoveMember(groupRows: map<string, RowSet>, rowGroup: map<nat, string>, rows: set<nat>, canon: nat -> string,
                   canon': nat -> string, row: nat, key: string)
    requires MembershipOf(groupRows, rowGroup, rows, canon) && Rekeyed(rows, canon, canon', row, Some(key))
    ensures var left := if row in rowGroup then Dropped(groupRows, rowGroup[row], row) else groupRows;
            MembershipOf(Joined(left, key, row), rowGroup[row := key], rows + {row}, canon')
  {
    var left := if row in rowGroup then Dropped(groupRows, rowGroup[row], row) else groupRows;
    DropMember(groupRows, rowGroup, rows, canon, canon', row);
    AddMember(left, rowGroup - {row}, rows - {row}, canon', row);
    assert (rowGroup - {row})[row := key] == rowGroup[row := key];
    assert rows - {row} + {row} == rows + {row};
  }

  /** The groups after a row takes on a key, or none. */
  ghost function Moved(groupRows: map<string, RowSet>, rowGroup: map<nat, string>, row: nat, newKey: Option<string>)
    : map<string, RowSet>
  {
    if newKey.Some? && Lookup(rowGroup, row) == newKey then groupRows
    else
      var left := if row in rowGroup then Dropped(groupRows, rowGroup[row], row) else groupRows;
      if newKey.Some? then Joined(left, newKey.value, row) else left
  }

  lemma MovedMember(groupRows: map<string, RowSet>, rowGroup: map<nat, string>, rows: set<nat>, canon: nat -> string,
                    canon': nat -> string, row: nat, newKey: Option<string>)
    requires MembershipOf(groupRows, rowGroup, rows, canon) && Rekeyed(rows, canon, canon', row, newKey)
    ensures MembershipOf(Moved(groupRows, rowGroup, row, newKey), Placed(rowGroup, row, newKey),
                         RowsAfter(rows, row, newKey), canon')
  {
    if newKey.Some? && Lookup(rowGroup, row) == newKey {
      StayMember(groupRows, rowGroup, rows, canon, canon', row, newKey.value);
    } else if newKey.Some? {
      MoveMember(groupRows, rowGroup, rows, canon, canon', row, newKey.value);
    } else {
      DropMember(groupRows, rowGroup, rows, canon, canon', row);
    }
  }

  lemma MovedElsewhere(groupRows: map<string, RowSet>, rowGroup: map<nat, string>, rows: set<nat>, canon: nat -> string,
                       row: nat, newKey: Option<string>, dirty: seq<string>)
    requires MembershipOf(groupRows, rowGroup, rows, canon)
    requires (row in rowGroup ==> rowGroup[row] in dirty) && (newKey.Some? ==> newKey.value in dirty)
    ensures SameElsewhere(groupRows, Moved(groupRows, rowGroup, row, newKey), dirty, row)
  {
  }

  lemma StayMember(groupRows: map<string, RowSet>, rowGroup: map<nat, string>, rows: set<nat>, canon: nat -> string,
                   canon': nat -> string, row: nat, key: string)
    requires MembershipOf(groupRows, rowGroup, rows, canon) && Rekeyed(rows, canon, canon', row, Some(key))
    requires row in rowGroup && rowGroup[row] == key
    ensures MembershipOf(groupRows, rowGroup[row := key], rows + {row}, canon')
  {
    assert rowGroup[row := key] == rowGroup && rows + {row} == rows;
  }

  // ---- deltas ----

  datatype GroupDelta = Add(body: RowMap) | Update(body: RowMap) | Remove(body: RowMap)

  /** A client finds the group of a delta by the group columns of its body. */
  function Applied(view: View, d: GroupDelta, canonOf: RowMap -> string): View {
    if d.Remove? then view - {canonOf(d.body)} else view[canonOf(d.body) := d.body]
  }

  function AppliedAll(view: View, ds: seq<GroupDelta>, canonOf: RowMap -> string): View {
    if ds == [] then view else Applied(AppliedAll(view, ds[..|ds| - 1], canonOf), ds[|ds| - 1], canonOf)
  }

  /** An Add for a group the client does not have, an Update or Remove for one it has. */
  predicate FitsView(view: View, d: GroupDelta, canonOf: RowMap -> string) { d.Add? <==> canonOf(d.body) !in view }

  /** Each delta fits what the ones before it leave. */
  ghost predicate FitsAll(view: View, ds: seq<GroupDelta>, canonOf: RowMap -> string) {
    ds == [] ||
    (FitsAll(view, ds[..|ds| - 1], canonOf)
     && FitsView(AppliedAll(view, ds[..|ds| - 1], canonOf), ds[|ds| - 1], canonOf))
  }

  /** Fitting deltas that take one view to the other. */
  ghost predicate Carries(view: View, ds: seq<GroupDelta>, canonOf: RowMap -> string, view': View) {
    FitsAll(view, ds, canonOf) && AppliedAll(view, ds, canonOf) == view'
  }

  lemma CarriesOne(view: View, d: GroupDelta, canonOf: RowMap -> string)
    requires FitsView(view, d, canonOf)
    ensures Carries(view, [d], canonOf, Applied(view, d, canonOf))
  {
    assert [d][..0] == [];
  }

  lemma {:induction false} CarriesAppend(view: View, a: seq<GroupDelta>, b: seq<GroupDelta>, canonOf: RowMap -> string,
                                         view': View, view'': View)
    requires Carries(view, a, canonOf, view') && Carries(view', b, canonOf, view'')
    ensures Carries(view, a + b, canonOf, view'')
  {
    if b == [] {
      assert a + b == a;
    } else {
      var front := b[..|b| - 1];
      CarriesAppend(view, a, front, canonOf, view', AppliedAll(view', front, canonOf));
      assert (a + b)[..|a + b| - 1] == a + front;
    }
  }

  ghost predicate Labelled(view: View, canonOf: RowMap -> string) { forall k :: k in view ==> canonOf(view[k]) == k }

  /** The view with the entry of `key` brought up to date. */
  ghost function Refreshed(view: View, key: string, row: Option<RowMap>): View {
    if row.Some? then view[key := row.value] else view - {key}
  }

  /** The diff of one recomputed group against what was last emitted. */
  method Diff(view: View, key: string, recomputed: Option<RowMap>, ghost canonOf: RowMap -> string)
    returns (view': View, deltas: seq<GroupDelta>)
    requires Labelled(view, canonOf) && (recomputed.Some? ==> canonOf(recomputed.value) == key)
    ensures view' == Refreshed(view, key, recomputed) && Labelled(view', canonOf)
    ensures Carries(view, deltas, canonOf, view')
    ensures deltas == [] <==> view' == view
  {
    view', deltas := view, [];
    if recomputed.Some? {
      var row := recomputed.value;
      if key !in view {
        deltas := [GroupDelta.Add(row)];
        view' := view[key := row];
        CarriesOne(view, GroupDelta.Add(row), canonOf);
      } else if view[key] != row {
        deltas := [Update(row)];
        view' := view[key := row];
        CarriesOne(view, Update(row), canonOf);
        assert view'[key] != view[key];
      }
    } else if key in view {
      deltas := [Remove(view[key])];
      view' := view - {key};
      CarriesOne(view, Remove(view[key]), canonOf);
    }
  }

  // ---- what a mutation of one row leaves alone ----

  function RowAt(store: Store, r: nat): Option<Row> { if r < |store.rows| then Some(store.rows[r]) else None }

  ghost predicate Mutated(before: Store, after: Store, row: nat) {
    before.types == after.types && forall r: nat :: r != row ==> RowAt(after, r) == RowAt(before, r)
  }

  lemma {:induction false} FoldFrame<S(!new)>(init: S, step: (S, nat) -> S, step': (S, nat) -> S, rows: seq<nat>)
    requires forall s: S, r: nat :: r in rows ==> step(s, r) == step'(s, r)
    ensures Fold(init, step, rows) == Fold(init, step', rows)
  {
    if rows != [] { FoldFrame(init, step, step', rows[..|rows| - 1]); }
  }

  lemma StatesFrame(rt: Runtime, q: AggQuery, before: Store, after: Store, row: nat, members: seq<nat>)
    requires AggFits(q, before.types) && Mutated(before, after, row) && row !in members
    ensures StatesOver(rt, q, before, members) == StatesOver(rt, q, after, members)
  {
    var step, step' := StepOf(rt, q, before.types, before.rows), StepOf(rt, q, after.types, after.rows);
    forall s: seq<AggState>, r: nat | r in members ensures step(s, r) == step'(s, r) {
      assert RowAt(after, r) == RowAt(before, r);
    }
    FoldFrame(InitStates(q, before.types), step, step', members);
  }

  lemma KeyFrame(rt: Runtime, q: AggQuery, names: seq<string>, before: Store, after: Store, row: nat, r: nat)
    requires AggFits(q, before.types) && |names| == |before.types| && Mutated(before, after, row) && r != row
    ensures RowKey(rt, q, before.types, before.rows)(r) == RowKey(rt, q, after.types, after.rows)(r)
    ensures CanonicalKey(rt, q, names, before)(r) == CanonicalKey(rt, q, names, after)(r)
  {
    assert RowAt(after, r) == RowAt(before, r);
  }

  /** A group without the mutated row shows what it showed. */
  lemma ShownFrame(rt: Runtime, q: AggQuery, names: seq<string>, before: Store, after: Store, row: nat, members: RowSet)
    requires AggFits(q, before.types) && |names| == |before.types| && Mutated(before, after, row) && row !in members
    ensures Shown(rt, q, names, before)(members) == Shown(rt, q, names, after)(members)
  {
    if members != {} {
      var rows := Ascending(members);
      assert |rows| == |members| > 0;
      assert rows[0] in rows;
      KeyFrame(rt, q, names, before, after, row, rows[0]);
      KeyLength(rt, q, before, rows[0]);
      StatesFrame(rt, q, before, after, row, rows);
    }
  }

  datatype MutationKind = Upsert | Delete

  ghost function LiveAfter(live: RowSet, row: nat, kind: MutationKind): RowSet {
    if kind.Delete? then live - {row} else live + {row}
  }

  ghost predicate IsMatch(rt: Runtime, q: AggQuery, store: Store, row: nat, kind: MutationKind)
    requires store.Valid() && AggFits(q, store.types) && row < |store.rows|
  {
    kind.Upsert? && Matches(rt.lib, q.predicate_, store.types, store.rows[row])
  }

  /** Only the mutated row can enter or leave the live matching rows. */
  lemma MatchesFrame(rt: Runtime, q: AggQuery, before: Store, after: Store, row: nat, kind: MutationKind, live: RowSet)
    requires before.Valid() && after.Valid() && AggFits(q, before.types) && Mutated(before, after, row)
             && row < |after.rows|
    ensures var rows := RowsIn(MatchesOf(rt, q, before, Some(live)));
            RowsIn(MatchesOf(rt, q, after, Some(LiveAfter(live, row, kind)))) ==
            if IsMatch(rt, q, after, row, kind) then rows + {row} else rows - {row}
  {
    var live' := LiveAfter(live, row, kind);
    LiveMatchesAre(rt.lib, q.predicate_, before, Some(live));
    LiveMatchesAre(rt.lib, q.predicate_, after, Some(live'));
    forall r: nat | r != row
      ensures r in MatchesOf(rt, q, after, Some(live')) <==> r in MatchesOf(rt, q, before, Some(live))
    {
      assert RowAt(after, r) == RowAt(before, r);
      assert MatchingRow(rt.lib, q.predicate_, after, r) <==> MatchingRow(rt.lib, q.predicate_, before, r);
    }
  }

  // ---- the subscription ----

  /** What a group shows carries the group's own key. */
  lemma ShownLabel(rt: Runtime, q: AggQuery, names: seq<string>, store: Store, live: RowSet,
                   groupRows: map<string, RowSet>, rowGroup: map<nat, string>, k: string)
    requires Comparable(rt, q, names, store) && KeysVisible(q, GroupNames(q, names))
    requires Membership(rt, q, names, store, Some(live), groupRows, rowGroup)
    ensures var row := ShownAt(groupRows, Shown(rt, q, names, store), k);
            row.Some? ==> CanonOf(rt, GroupNames(q, names))(row.value) == k
  {
    if k in groupRows && groupRows[k] != {} {
      var rows := Ascending(groupRows[k]);
      assert |rows| == |groupRows[k]| > 0;
      var first := rows[0];
      assert first in rows;
      SameBitmap(groupRows, rowGroup, RowsIn(MatchesOf(rt, q, store, Some(live))), CanonicalKey(rt, q, names, store),
                 k, first, first);
      MatchesInside(rt, q, store, Some(live), first);
      GroupRowCanonical(rt, q, names, store, first, rows);
    }
  }

  ghost predicate GroupsLabelled(groupRows: map<string, RowSet>, shown: RowSet -> Option<RowMap>,
                                 canonOf: RowMap -> string)
  {
    forall k :: ShownAt(groupRows, shown, k).Some? ==> canonOf(ShownAt(groupRows, shown, k).value) == k
  }

  lemma ShownLabels(rt: Runtime, q: AggQuery, names: seq<string>, store: Store, live: RowSet,
                    groupRows: map<string, RowSet>, rowGroup: map<nat, string>)
    requires Comparable(rt, q, names, store) && KeysVisible(q, GroupNames(q, names))
    requires Membership(rt, q, names, store, Some(live), groupRows, rowGroup)
    ensures GroupsLabelled(groupRows, Shown(rt, q, names, store), CanonOf(rt, GroupNames(q, names)))
  {
    forall k ensures var row := ShownAt(groupRows, Shown(rt, q, names, store), k);
                     row.Some? ==> CanonOf(rt, GroupNames(q, names))(row.value) == k {
      ShownLabel(rt, q, names, store, live, groupRows, rowGroup, k);
    }
  }

  lemma ShowsLabelled(rt: Runtime, q: AggQuery, names: seq<string>, store: Store, live: RowSet,
                      groupRows: map<string, RowSet>, rowGroup: map<nat, string>, view: View)
    requires Comparable(rt, q, names, store) && KeysVisible(q, GroupNames(q, names))
    requires Membership(rt, q, names, store, Some(live), groupRows, rowGroup)
    requires Shows(view, groupRows, Shown(rt, q, names, store))
    ensures Labelled(view, CanonOf(rt, GroupNames(q, names)))
  {
    forall k | k in view ensures CanonOf(rt, GroupNames(q, names))(view[k]) == k {
      assert Lookup(view, k) == ShownAt(groupRows, Shown(rt, q, names, store), k);
      ShownLabel(rt, q, names, store, live, groupRows, rowGroup, k);
    }
  }

  lemma RefreshStep(view: View, groupRows: map<string, RowSet>, shown: RowSet -> Option<RowMap>, key: string,
                    rest: seq<string>)
    requires ShowsBut(view, groupRows, shown, [key] + rest)
    ensures ShowsBut(Refreshed(view, key, ShownAt(groupRows, shown, key)), groupRows, shown, rest)
  {
    var view' := Refreshed(view, key, ShownAt(groupRows, shown, key));
    forall k | k !in rest ensures Lookup(view', k) == ShownAt(groupRows, shown, k) {
      if k != key { assert Lookup(view, k) == ShownAt(groupRows, shown, k); }
    }
  }

  /** Arranging without a limit keeps the rows, so the view is the same. */
  lemma ArrangedView(lib: Library, q: AggQuery, rows: seq<RowMap>, view: View, canonOf: RowMap -> string)
    requires q.limit.None?
    ensures IsView(view, Arranged(lib, q, rows), canonOf) <==> IsView(view, rows, canonOf)
  {
    forall row: RowMap ensures row in Arranged(lib, q, rows) <==> row in rows {
      if q.orderBy != [] { SortKeepsElements(rows, OutputOrder(lib, q.orderBy), row); }
    }
  }

  /** Groups the mutated row is in neither before nor after still show what they showed. */
  lemma StillShown(rt: Runtime, q: AggQuery, names: seq<string>, before: Store, after: Store, row: nat,
                   groupRows: map<string, RowSet>, groupRows': map<string, RowSet>, dirty: seq<string>, view: View)
    requires AggFits(q, before.types) && |names| == |before.types| && Mutated(before, after, row)
    requires Shows(view, groupRows, Shown(rt, q, names, before)) && SameElsewhere(groupRows, groupRows', dirty, row)
    ensures ShowsBut(view, groupRows', Shown(rt, q, names, after), dirty)
  {
    var shown, shown' := Shown(rt, q, names, before), Shown(rt, q, names, after);
    forall k | k !in dirty ensures Lookup(view, k) == ShownAt(groupRows', shown', k) {
      assert Lookup(view, k) == ShownAt(groupRows, shown, k);
      assert Lookup(groupRows', k) == Lookup(groupRows, k);
      if k in groupRows { ShownFrame(rt, q, names, before, after, row, groupRows[k]); }
    }
  }

  /** What a full execution on the table gives, keyed by group. */
  ghost predicate IsFullView(rt: Runtime, q: AggQuery, names: seq<string>, store: Store, live: RowSet, view: View)
    requires Comparable(rt, q, names, store)
  {
    IsView(view, FullRows(rt, q, names, store, MatchesOf(rt, q, store, Some(live))), CanonOf(rt, GroupNames(q, names)))
  }

  /** What the executor returns, by group. */
  method Snapshot(rt: Runtime, q: AggQuery, names: seq<string>, store: Store, index: Option<Index>, live: RowSet)
    returns (view: View)
    requires Agreeable(rt, q, names, store, Some(live)) && q.limit.None?
    requires index.Some? ==> InSync(index.value, store)
    requires NoneLost(rt.lib, q.predicate_, store, index, Some(live))
    ensures IsFullView(rt, q, names, store, live, view)
  {
    var rows := ExecuteAggregate(rt, q, names, store, index, Some(live));
    view := SeedView(rt, GroupNames(q, names), rows);
    ArrangedView(rt.lib, q, FullRows(rt, q, names, store, MatchesOf(rt, q, store, Some(live))), view,
                 CanonOf(rt, GroupNames(q, names)));
  }

  class AggregateSubscription {
    const rt: Runtime
    const q: AggQuery
    const names: seq<string>
    var groupRows: map<string, RowSet>
    var rowGroup: map<nat, string>
    var lastEmitted: View

    ghost predicate Serves(store: Store) {
      Comparable(rt, q, names, store) && KeysVisible(q, GroupNames(q, names)) && q.groupBy != []
    }

    /** The maps are those of the live matching rows, and every visible group was last emitted as it is now. */
    ghost predicate Valid(store: Store, live: RowSet)
      reads this
    {
      && Serves(store)
      && Membership(rt, q, names, store, Some(live), groupRows, rowGroup)
      && Shows(lastEmitted, groupRows, Shown(rt, q, names, store))
    }

    /** Take a snapshot with the executor and seed the membership maps from the same rows. */
    constructor (rt: Runtime, q: AggQuery, names: seq<string>, store: Store, index: Option<Index>, live: RowSet)
      requires Agreeable(rt, q, names, store, Some(live)) && q.limit.None?
      requires index.Some? ==> InSync(index.value, store)
      requires NoneLost(rt.lib, q.predicate_, store, index, Some(live))
      ensures this.rt == rt && this.q == q && this.names == names && Valid(store, live)
    {
      this.rt, this.q, this.names := rt, q, names;
      var view := Snapshot(rt, q, names, store, index, live);
      var byGroup, byRow := BuildMembership(rt, q, names, store, Some(live));
      ViewIsFullResult(rt, q, names, store, Some(live), byGroup, byRow, view);
      groupRows, rowGroup, lastEmitted := byGroup, byRow, view;
    }

    /** Update the maps for one row; the keys returned are the only ones whose group changed. */
    method MoveRow(row: nat, newKey: Option<string>, ghost rows: set<nat>, ghost canon: nat -> string,
                   ghost canon': nat -> string)
      returns (dirty: seq<string>)
      requires MembershipOf(groupRows, rowGroup, rows, canon) && Rekeyed(rows, canon, canon', row, newKey)
      modifies this`groupRows, this`rowGroup
      ensures MembershipOf(groupRows, rowGroup, RowsAfter(rows, row, newKey), canon')
      ensures SameElsewhere(old(groupRows), groupRows, dirty, row)
    {
      var oldKey := Lookup(rowGroup, row);
      ghost var groups, placed := groupRows, rowGroup;
      MovedMember(groups, placed, rows, canon, canon', row, newKey);
      dirty := [];
      if oldKey.Some? && newKey == oldKey {
        dirty := [newKey.value];
      } else {
        if oldKey.Some? {
          groupRows := Dropped(groupRows, oldKey.value, row);
          dirty := dirty + [oldKey.value];
        }
        if newKey.Some? {
          groupRows := Joined(groupRows, newKey.value, row);
          dirty := dirty + [newKey.value];
        }
      }
      assert groupRows == Moved(groups, placed, row, newKey);
      MovedElsewhere(groups, placed, rows, canon, row, newKey, dirty);
      rowGroup := Placed(rowGroup, row, newKey);
    }

    method Recompute(key: string, store: Store) returns (row: Option<RowMap>)
      requires AggFits(q, store.types) && |names| == |store.types|
      ensures row == ShownAt(groupRows, Shown(rt, q, names, store), key)
    {
      row := None;
      if key in groupRows && groupRows[key] != {} {
        row := AggregateOneGroup(rt, q, names, store, groupRows[key]);
      }
    }

    /** Diff one recomputed group against what was last emitted. */
    method Emit(key: string, row: Option<RowMap>, ghost shown: RowSet -> Option<RowMap>,
                ghost canonOf: RowMap -> string,
                ghost rest: seq<string>) returns (deltas: seq<GroupDelta>)
      requires row == ShownAt(groupRows, shown, key) && (row.Some? ==> canonOf(row.value) == key)
      requires ShowsBut(lastEmitted, groupRows, shown, [key] + rest) && Labelled(lastEmitted, canonOf)
      modifies this`lastEmitted
      ensures ShowsBut(lastEmitted, groupRows, shown, rest) && Labelled(lastEmitted, canonOf)
      ensures Carries(old(lastEmitted), deltas, canonOf, lastEmitted)
    {
      RefreshStep(lastEmitted, groupRows, shown, key, rest);
      var view;
      view, deltas := Diff(lastEmitted, key, row, canonOf);
      lastEmitted := view;
    }

    /** Bring every dirty group up to date. */
    method Refresh(dirty: seq<string>, store: Store, ghost shown: RowSet -> Option<RowMap>,
                   ghost canonOf: RowMap -> string)
      returns (deltas: seq<GroupDelta>)
      requires AggFits(q, store.types) && |names| == |store.types| && shown == Shown(rt, q, names, store)
      requires GroupsLabelled(groupRows, shown, canonOf)
      requires ShowsBut(lastEmitted, groupRows, shown, dirty) && Labelled(lastEmitted, canonOf)
      modifies this`lastEmitted
      ensures Shows(lastEmitted, groupRows, shown)
      ensures Carries(old(lastEmitted), deltas, canonOf, lastEmitted)
    {
      deltas := [];
      assert dirty[0..] == dirty;
      for i := 0 to |dirty|
        invariant ShowsBut(lastEmitted, groupRows, shown, dirty[i..]) && Labelled(lastEmitted, canonOf)
        invariant Carries(old(lastEmitted), deltas, canonOf, lastEmitted)
      {
        var row := Recompute(dirty[i], store);
        assert dirty[i..] == [dirty[i]] + dirty[i + 1..];
        ghost var view := lastEmitted;
        var more := Emit(dirty[i], row, shown, canonOf, dirty[i + 1..]);
        CarriesAppend(old(lastEmitted), deltas, more, canonOf, view, lastEmitted);
        deltas := deltas + more;
      }
    }

    /**
     One mutation: the subscription is again in step with the store, and a client
     that applies the deltas to the old view gets the new one.
     */
    method Evaluate(row: nat, kind: MutationKind, store: Store, ghost before: Store, ghost live: RowSet)
      returns (deltas: seq<GroupDelta>)
      requires Valid(before, live) && Serves(store) && Mutated(before, store, row) && row < |store.rows|
      modifies this
      ensures Valid(store, LiveAfter(live, row, kind))
      ensures Carries(old(lastEmitted), deltas, CanonOf(rt, GroupNames(q, names)), lastEmitted)
    {
      var matches := kind.Upsert? && Matches(rt.lib, q.predicate_, store.types, store.rows[row]);
      var newKey := if matches then Some(CanonicalKey(rt, q, names, store)(row)) else None;
      ghost var rows := RowsIn(MatchesOf(rt, q, before, Some(live)));
      MatchesFrame(rt, q, before, store, row, kind, live);
      KeysAfter(rt, q, names, before, store, row, newKey, rows);
      ShowsLabelled(rt, q, names, before, live, groupRows, rowGroup, lastEmitted);
      ghost var groups := groupRows;
      var dirty := MoveRow(row, newKey, rows, CanonicalKey(rt, q, names, before), CanonicalKey(rt, q, names, store));
      StillShown(rt, q, names, before, store, row, groups, groupRows, dirty, lastEmitted);
      ShownLabels(rt, q, names, store, LiveAfter(live, row, kind), groupRows, rowGroup);
      deltas := Refresh(dirty, store, Shown(rt, q, names, store), CanonOf(rt, GroupNames(q, names)));
    }
  }

  lemma KeysAfter(rt: Runtime, q: AggQuery, names: seq<string>, before: Store, after: Store, row: nat,
                  newKey: Option<string>, rows: set<nat>)
    requires AggFits(q, before.types) && |names| == |before.types| && Mutated(before, after, row)
    requires newKey.Some? ==> newKey.value == CanonicalKey(rt, q, names, after)(row)
    ensures Rekeyed(rows, CanonicalKey(rt, q, names, before), CanonicalKey(rt, q, names, after), row, newKey)
  {
    forall r: nat | r in rows && r != row
      ensures CanonicalKey(rt, q, names, after)(r) == CanonicalKey(rt, q, names, before)(r)
    {
      KeyFrame(rt, q, names, before, after, row, r);
    }
  }

  // ---- whole runs ----

  /** A mutation of one row and the table it leaves. */
  datatype Event = Event(row: nat, kind: MutationKind, after: Store)

  ghost function StoreAfter(store: Store, events: seq<Event>): Store {
    if events == [] then store else events[|events| - 1].after
  }

  ghost function LiveAfterAll(live: RowSet, events: seq<Event>): RowSet {
    if events == [] then live
    else LiveAfter(LiveAfterAll(live, events[..|events| - 1]), events[|events| - 1].row, events[|events| - 1].kind)
  }

  /** Each event changes its own row of the table the previous one left. */
  ghost predicate IsTrace(types: seq<ColumnType>, store: Store, events: seq<Event>) {
    if events == [] then store.types == types && store.Valid()
    else
      var front, last := events[..|events| - 1], events[|events| - 1];
      && IsTrace(types, store, front)
      && Mutated(StoreAfter(store, front), last.after, last.row)
      && last.after.Valid() && last.row < |last.after.rows|
  }

  lemma {:induction false} TracePrefix(types: seq<ColumnType>, store: Store, events: seq<Event>, n: nat)
    requires IsTrace(types, store, events) && n <= |events|
    ensures IsTrace(types, store, events[..n])
  {
    if n == |events| {
      assert events[..n] == events;
    } else {
      TracePrefix(types, store, events[..|events| - 1], n);
      assert events[..|events| - 1][..n] == events[..n];
    }
  }

  lemma {:induction false} TraceTypes(types: seq<ColumnType>, store: Store, events: seq<Event>)
    requires IsTrace(types, store, events)
    ensures StoreAfter(store, events).types == types && StoreAfter(store, events).Valid()
  {
    if events != [] { TraceTypes(types, store, events[..|events| - 1]); }
  }

  method Follow(sub: AggregateSubscription, ghost store: Store, ghost live: RowSet, events: seq<Event>)
    returns (deltas: seq<GroupDelta>)
    requires sub.Valid(store, live) && IsTrace(store.types, store, events)
    modifies sub
    ensures sub.Valid(StoreAfter(store, events), LiveAfterAll(live, events))
    ensures Carries(old(sub.lastEmitted), deltas, CanonOf(sub.rt, GroupNames(sub.q, sub.names)), sub.lastEmitted)
  {
    ghost var canonOf := CanonOf(sub.rt, GroupNames(sub.q, sub.names));
    deltas := [];
    for i := 0 to |events|
      invariant sub.Valid(StoreAfter(store, events[..i]), LiveAfterAll(live, events[..i]))
      invariant Carries(old(sub.lastEmitted), deltas, canonOf, sub.lastEmitted)
    {
      TracePrefix(store.types, store, events, i + 1);
      TraceTypes(store.types, store, events[..i + 1]);
      assert events[..i + 1][..i] == events[..i];
      var e := events[i];
      ghost var view := sub.lastEmitted;
      var more := sub.Evaluate(e.row, e.kind, e.after, StoreAfter(store, events[..i]), LiveAfterAll(live, events[..i]));
      CarriesAppend(old(sub.lastEmitted), deltas, more, canonOf, view, sub.lastEmitted);
      deltas := deltas + more;
    }
    assert events[..|events|] == events;
  }

  /**
   From subscription through any run of mutations: the snapshot with the deltas
   applied is the view of a full execution on the final table.
   */
  method RunSubscription(rt: Runtime, q: AggQuery, names: seq<string>, store: Store, index: Option<Index>, live: RowSet,
                         events: seq<Event>) returns (snapshot: View, deltas: seq<GroupDelta>)
    requires Agreeable(rt, q, names, store, Some(live)) && q.limit.None?
    requires index.Some? ==> InSync(index.value, store)
    requires NoneLost(rt.lib, q.predicate_, store, index, Some(live))
    requires IsTrace(store.types, store, events)
    requires Agreeable(rt, q, names, StoreAfter(store, events), Some(LiveAfterAll(live, events)))
    ensures IsFullView(rt, q, names, store, live, snapshot)
    ensures IsFullView(rt, q, names, StoreAfter(store, events), LiveAfterAll(live, events),
                       AppliedAll(snapshot, deltas, CanonOf(rt, GroupNames(q, names))))
    ensures FitsAll(snapshot, deltas, CanonOf(rt, GroupNames(q, names)))
  {
    var sub := new AggregateSubscription(rt, q, names, store, index, live);
    snapshot := sub.lastEmitted;
    ViewIsFullResult(rt, q, names, store, Some(live), sub.groupRows, sub.rowGroup, snapshot);
    deltas := Follow(sub, store, live, events);
    ViewIsFullResult(rt, q, names, StoreAfter(store, events), Some(LiveAfterAll(live, events)),
                     sub.groupRows, sub.rowGroup, sub.lastEmitted);
  }
}
