/**
 Subscriptions with a LIMIT: the evaluator keeps the matching rows ranked by the
 ORDER BY columns and sends the changes of the first `limit` of them.
 */
module TopN {
  import opened Wrappers
  import F = Float64
  import opened Orders
  import opened Values
  import opened Predicates
  import opened Planner
  import opened Executor
  import opened Grouping
  import opened Tombstones
  import opened Windows
  import opened Topics
  import C = Conflation

  // ---- the comparator of the ranking ----

  /**
   `f64::total_cmp` orders doubles by their ordered bit patterns, NaN included;
   Booleans, timestamps and byte strings all compare equal.
   */
  function RankValues(a: Value, b: Value): Ordering {
    match (a, b)
    case (Null, Null) => Equal
    case (Null, _) => Less
    case (_, Null) => Greater
    case (Double(x), Double(y)) => CompareInt(F.OrderedBits(x), F.OrderedBits(y))
    case (Long(x), Long(y)) => CompareInt(x, y)
    case (Int(x), Int(y)) => CompareInt(x, y)
    case (String(x), String(y)) => CompareOption(x, y, CompareString)
    case _ => Equal
  }

  /** Whether the ranking orders two cells of a column as a query does. */
  predicate RanksAlike(a: Value, b: Value) {
    match (a, b)
    case (Double(x), Double(y)) =>
      if F.IsNaN(x) && F.IsNaN(y) then x == y
      else if F.IsNaN(x) then F.SignBit(x)
      else if F.IsNaN(y) then F.SignBit(y)
      else x == y || !F.IsZero(x) || !F.IsZero(y)
    case (Bool(x), Bool(y)) => x == y
    case (Timestamp(x), Timestamp(y)) => x == y
    case _ => true
  }

  /** A NaN is beyond every number, on the side of its sign. */
  lemma NaNBeyondNumbers(x: F.F64, y: F.F64)
    requires F.IsNaN(x) && !F.IsNaN(y)
    ensures if F.SignBit(x) then F.OrderedBits(x) < F.OrderedBits(y) else F.OrderedBits(x) > F.OrderedBits(y)
  {
    NaNPattern(x);
    NaNPattern(y);
  }

  lemma NaNPattern(x: F.F64)
    ensures F.IsNaN(x) <==> (if F.SignBit(x) then x - F.TWO63 else x) > 2047 * F.TWO52
  {
    var m := if F.SignBit(x) then x - F.TWO63 else x;
    assert F.TWO63 == 2048 * F.TWO52;
    assert 0 <= m < 2048 * F.TWO52;
    assert m == F.TWO52 * (m / F.TWO52) + m % F.TWO52;
    if F.SignBit(x) {
      assert x == F.TWO52 * (m / F.TWO52 + 2048) + m % F.TWO52;
      F.QuotientUnique(x, F.TWO52, m / F.TWO52 + 2048, m % F.TWO52);
    }
  }

  lemma RankDoublesExact(x: F.F64, y: F.F64)
    ensures CompareInt(F.OrderedBits(x), F.OrderedBits(y)) == CompareDouble(x, y) <==> RanksAlike(Double(x), Double(y))
  {
    if F.IsNaN(x) && !F.IsNaN(y) {
      NaNBeyondNumbers(x, y);
    } else if !F.IsNaN(x) && F.IsNaN(y) {
      NaNBeyondNumbers(y, x);
    } else if !F.IsNaN(x) && !F.IsNaN(y) {
      F.OrderedBitsFollowsNumbers(x, y);
      F.OrderedBitsFollowsNumbers(y, x);
      F.LessIsStrict(F.Denote(x), F.Denote(y));
      F.ZeroesAreEqual();
    }
  }

  lemma RankValuesExact(a: Value, b: Value, ty: ColumnType)
    requires a.HasType(ty) && b.HasType(ty)
    ensures RankValues(a, b) == CompareValues(a, b) <==> RanksAlike(a, b)
  {
    if ty == DoubleType { RankDoublesExact(a.d, b.d); }
  }

  lemma RankValuesAntisymmetric(a: Value, b: Value)
    ensures RankValues(b, a) == RankValues(a, b).Reverse()
    ensures RankValues(a, a) == Equal
  {
    if a.String? && b.String? && a.s.Some? && b.s.Some? { CompareStringAntisymmetric(a.s.value, b.s.value); }
    if a.String? && a.s.Some? { CompareStringAntisymmetric(a.s.value, a.s.value); }
  }

  lemma RankValuesTransitive(a: Value, b: Value, c: Value, ty: ColumnType)
    requires a.HasType(ty) && b.HasType(ty) && c.HasType(ty)
    requires RankValues(a, b) != Greater && RankValues(b, c) != Greater
    ensures RankValues(a, c) != Greater
    ensures RankValues(a, b) == Less || RankValues(b, c) == Less ==> RankValues(a, c) == Less
  {
    if ty == StringType { CompareValuesTransitive(a, b, c, ty); }
  }

  /** The cells of the ORDER BY columns. */
  function KeyValues(order: seq<SortKey>, row: Row): (key: seq<Value>)
    ensures |key| == |order|
  {
    seq(|order|, i requires 0 <= i < |order| => if order[i].col < |row| then row[order[i].col] else Null)
  }

  function Directed(k: SortKey, ord: Ordering): Ordering { if k.ascending then ord else ord.Reverse() }

  function RankKeys(order: seq<SortKey>, a: seq<Value>, b: seq<Value>): Ordering
    requires |a| == |b| == |order|
  {
    if order == [] then Equal
    else
      var ord := Directed(order[0], RankValues(a[0], b[0]));
      if ord != Equal then ord else RankKeys(order[1..], a[1..], b[1..])
  }

  lemma {:induction false} RankKeysAntisymmetric(order: seq<SortKey>, a: seq<Value>, b: seq<Value>)
    requires |a| == |b| == |order|
    ensures RankKeys(order, b, a) == RankKeys(order, a, b).Reverse()
    ensures RankKeys(order, a, a) == Equal
  {
    if order != [] {
      RankValuesAntisymmetric(a[0], b[0]);
      RankKeysAntisymmetric(order[1..], a[1..], b[1..]);
    }
  }

  ghost predicate KeyTyped(order: seq<SortKey>, types: seq<ColumnType>, key: seq<Value>) {
    |key| == |order| && forall i :: 0 <= i < |order| ==> order[i].col < |types| && key[i].HasType(types[order[i].col])
  }

  lemma {:induction false} RankKeysTransitive(order: seq<SortKey>, types: seq<ColumnType>, a: seq<Value>,
                                              b: seq<Value>, c: seq<Value>)
    requires KeyTyped(order, types, a) && KeyTyped(order, types, b) && KeyTyped(order, types, c)
    requires RankKeys(order, a, b) != Greater && RankKeys(order, b, c) != Greater
    ensures RankKeys(order, a, c) != Greater
  {
    if order != [] {
      var x, y, z := a[0], b[0], c[0];
      RankValuesAntisymmetric(x, y);
      RankValuesAntisymmetric(y, z);
      RankValuesAntisymmetric(x, z);
      if order[0].ascending {
        RankValuesTransitive(x, y, z, types[order[0].col]);
      } else {
        RankValuesTransitive(z, y, x, types[order[0].col]);
      }
      if RankValues(x, y) == Equal && RankValues(y, z) == Equal {
        RankKeysTransitive(order[1..], types, a[1..], b[1..], c[1..]);
      }
    }
  }

  /** The ranking as an order on slots; slots outside the table come last. */
  predicate RankLe(order: seq<SortKey>, rows: seq<Row>, a: nat, b: nat) {
    b >= |rows| || (a < |rows| && RankKeys(order, KeyValues(order, rows[a]), KeyValues(order, rows[b])) != Greater)
  }

  function RankOrder(order: seq<SortKey>, rows: seq<Row>): (nat, nat) -> bool {
    (a: nat, b: nat) => RankLe(order, rows, a, b)
  }

  lemma RankOrderIsPreorder(order: seq<SortKey>, store: Store)
    requires store.Valid() && KeysFit(order, store.types)
    ensures TotalPreorder(RankOrder(order, store.rows))
  {
    var le, rows := RankOrder(order, store.rows), store.rows;
    forall a: nat, b: nat ensures le(a, b) || le(b, a) {
      if a < |rows| && b < |rows| {
        RankKeysAntisymmetric(order, KeyValues(order, rows[a]), KeyValues(order, rows[b]));
      }
    }
    forall a: nat, b: nat, c: nat | le(a, b) && le(b, c) ensures le(a, c) {
      if a < |rows| && b < |rows| && c < |rows| {
        RankKeysTransitive(order, store.types, KeyValues(order, rows[a]), KeyValues(order, rows[b]),
                           KeyValues(order, rows[c]));
      }
    }
  }

  // ---- sorted partitions under insertion and removal ----

  lemma BeforeTransitive(le: (nat, nat) -> bool, a: nat, b: nat, c: nat)
    requires TotalPreorder(le) && Before(le, NatLt, a, b) && Before(le, NatLt, b, c)
    ensures Before(le, NatLt, a, c)
  {
  }

  lemma BeforeTotal(le: (nat, nat) -> bool, a: nat, b: nat)
    requires TotalPreorder(le) && a != b
    ensures Before(le, NatLt, a, b) || Before(le, NatLt, b, a)
    ensures !(Before(le, NatLt, a, b) && Before(le, NatLt, b, a))
  {
  }

  lemma RemoveSorted(p: seq<nat>, peers: set<nat>, le: (nat, nat) -> bool, pos: nat)
    requires SortedPartition(p, peers, le) && pos < |p|
    ensures SortedPartition(p[..pos] + p[pos + 1..], peers - {p[pos]}, le)
  {
    var r := p[..pos] + p[pos + 1..];
    PartitionDistinct(p, peers, le);
    assert forall i :: 0 <= i < |r| ==> r[i] == p[if i < pos then i else i + 1];
    forall j: nat ensures j in r <==> j in peers - {p[pos]} {
      if j in p && j != p[pos] {
        var k :| 0 <= k < |p| && p[k] == j;
        assert r[if k < pos then k else k - 1] == j;
      }
    }
  }

  /** Everything before position `i` precedes `r`, and `r` precedes everything from there on. */
  lemma FollowsFrom(p: seq<nat>, peers: set<nat>, le: (nat, nat) -> bool, i: nat, r: nat, j: nat)
    requires SortedPartition(p, peers, le) && r !in peers && i <= j < |p| && !Before(le, NatLt, p[i], r)
    ensures Before(le, NatLt, r, p[j])
  {
    assert p[i] in p;
    BeforeTotal(le, p[i], r);
    if i < j { BeforeTransitive(le, r, p[i], p[j]); }
  }

  lemma InsertSorted(p: seq<nat>, peers: set<nat>, le: (nat, nat) -> bool, i: nat, r: nat)
    requires SortedPartition(p, peers, le) && r !in peers && i <= |p|
    requires (forall j :: 0 <= j < i ==> Before(le, NatLt, p[j], r)) && (i < |p| ==> !Before(le, NatLt, p[i], r))
    ensures SortedPartition(p[..i] + [r] + p[i..], peers + {r}, le)
  {
    var q := p[..i] + [r] + p[i..];
    assert forall k :: 0 <= k < |q| ==> q[k] == if k < i then p[k] else if k == i then r else p[k - 1];
    forall a, b | 0 <= a < b < |q| ensures Before(le, NatLt, q[a], q[b]) {
      if a == i { FollowsFrom(p, peers, le, i, r, b - 1); }
    }
    forall j: nat ensures j in q <==> j in peers + {r} {
      if j in p {
        var k :| 0 <= k < |p| && p[k] == j;
        assert q[if k < i then k else k + 1] == j;
      }
      assert q[i] == r;
    }
  }

  /** The order matters only on the rows listed. */
  lemma Reordered(p: seq<nat>, peers: set<nat>, le: (nat, nat) -> bool, le': (nat, nat) -> bool)
    requires SortedPartition(p, peers, le) && TotalPreorder(le')
    requires forall a: nat, b: nat :: a in peers && b in peers ==> le(a, b) == le'(a, b)
    ensures SortedPartition(p, peers, le')
  {
    forall i, j | 0 <= i < j < |p| ensures Before(le', NatLt, p[i], p[j]) {
      assert p[i] in p && p[j] in p;
      assert Before(le, NatLt, p[i], p[j]);
    }
  }

  /** There is one way to list a set in order. */
  lemma PartitionUnique(p: seq<nat>, q: seq<nat>, peers: set<nat>, le: (nat, nat) -> bool)
    requires SortedPartition(p, peers, le) && SortedPartition(q, peers, le)
    ensures p == q
  {
    PartitionDistinct(p, peers, le);
    PartitionDistinct(q, peers, le);
    DistinctCount(p);
    DistinctCount(q);
    assert Elements(p) == peers == Elements(q);
    forall k | 0 <= k < |p| ensures p[k] == q[k] {
      assert p[k] in q;
      var j :| 0 <= j < |q| && q[j] == p[k];
      PrecedingIsPrefix(p, peers, le, k);
      PrecedingIsPrefix(q, peers, le, j);
    }
  }

  // ---- the window ----

  ghost function MatchingSet(lib: Library, q: Query, store: Store): set<nat>
    requires store.Valid() && QueryFits(q, store.types)
  {
    set r: nat | r < |store.rows| && MatchingRow(lib, q.predicate_, store, r)
  }

  /** The rows whose ROW_NUMBER in the ranking is within the limit. */
  ghost function TopRows(lib: Library, q: Query, store: Store, limit: nat): set<nat>
    requires store.Valid() && QueryFits(q, store.types)
  {
    var matching := MatchingSet(lib, q, store);
    set r | r in matching && Numbered(RowNumber, matching, RankOrder(q.orderBy, store.rows), r) <= limit
  }

  function Take(p: seq<nat>, limit: nat): seq<nat> { if limit < |p| then p[..limit] else p }

  /** The first `limit` of a sorted partition are the rows numbered up to `limit`. */
  lemma TakeIsNumbered(p: seq<nat>, peers: set<nat>, le: (nat, nat) -> bool, limit: nat, r: nat)
    requires SortedPartition(p, peers, le)
    ensures r in Take(p, limit) <==> r in peers && Numbered(RowNumber, peers, le, r) <= limit
  {
    if r in peers {
      assert r in p;
      var k :| 0 <= k < |p| && p[k] == r;
      PrecedingIsPrefix(p, peers, le, k);
      PartitionDistinct(p, peers, le);
      if k < limit { assert Take(p, limit)[k] == r; }
      assert forall j :: 0 <= j < |p| && p[j] == r ==> j == k;
    } else {
      assert r !in p;
    }
  }

  lemma TakeIsTop(lib: Library, q: Query, store: Store, p: seq<nat>, limit: nat)
    requires store.Valid() && QueryFits(q, store.types)
    requires SortedPartition(p, MatchingSet(lib, q, store), RankOrder(q.orderBy, store.rows))
    ensures Elements(Take(p, limit)) == TopRows(lib, q, store, limit)
  {
    forall r: nat ensures r in Elements(Take(p, limit)) <==> r in TopRows(lib, q, store, limit) {
      TakeIsNumbered(p, MatchingSet(lib, q, store), RankOrder(q.orderBy, store.rows), limit, r);
    }
  }

  // ---- the ranked entries ----

  datatype Entry = Entry(key: seq<Value>, row: nat)

  predicate EntryBefore(order: seq<SortKey>, x: Entry, y: Entry)
    requires |x.key| == |y.key| == |order|
  {
    var ord := RankKeys(order, x.key, y.key);
    ord == Less || (ord == Equal && x.row < y.row)
  }

  predicate Keyed(order: seq<SortKey>, ranked: seq<Entry>) {
    forall i :: 0 <= i < |ranked| ==> |ranked[i].key| == |order|
  }

  function EntryOf(order: seq<SortKey>, rows: seq<Row>, r: nat): (e: Entry)
    requires r < |rows|
    ensures |e.key| == |order|
  {
    Entry(KeyValues(order, rows[r]), r)
  }

  /** The entries list the slots `p` with the keys their rows have. */
  ghost predicate Represents(order: seq<SortKey>, rows: seq<Row>, ranked: seq<Entry>, p: seq<nat>) {
    |ranked| == |p| && forall i :: 0 <= i < |p| ==> p[i] < |rows| && ranked[i] == EntryOf(order, rows, p[i])
  }

  lemma EntryOrder(order: seq<SortKey>, rows: seq<Row>, a: nat, b: nat)
    requires a < |rows| && b < |rows|
    ensures EntryBefore(order, EntryOf(order, rows, a), EntryOf(order, rows, b)) <==>
            Before(RankOrder(order, rows), NatLt, a, b)
  {
    RankKeysAntisymmetric(order, KeyValues(order, rows[a]), KeyValues(order, rows[b]));
  }

  /** Descend to where an entry is, or belongs. */
  method Locate(order: seq<SortKey>, ranked: seq<Entry>, e: Entry) returns (i: nat)
    requires Keyed(order, ranked) && |e.key| == |order|
    ensures i <= |ranked| && (forall j :: 0 <= j < i ==> EntryBefore(order, ranked[j], e))
    ensures i < |ranked| ==> !EntryBefore(order, ranked[i], e)
  {
    i := 0;
    while i < |ranked| && EntryBefore(order, ranked[i], e)
      invariant i <= |ranked| && forall j :: 0 <= j < i ==> EntryBefore(order, ranked[j], e)
    {
      i := i + 1;
    }
  }

  lemma SplicedOut(order: seq<SortKey>, rows: seq<Row>, ranked: seq<Entry>, p: seq<nat>, i: nat)
    requires Represents(order, rows, ranked, p) && i < |p|
    ensures Represents(order, rows, ranked[..i] + ranked[i + 1..], p[..i] + p[i + 1..])
  {
  }

  method RemoveEntry(order: seq<SortKey>, ranked: seq<Entry>, e: Entry, ghost rows: seq<Row>, ghost p: seq<nat>,
                     ghost peers: set<nat>)
    returns (ranked': seq<Entry>, ghost p': seq<nat>)
    requires Represents(order, rows, ranked, p) && SortedPartition(p, peers, RankOrder(order, rows))
    requires e.row in peers && e.row < |rows| && e == EntryOf(order, rows, e.row)
    ensures Represents(order, rows, ranked', p') && SortedPartition(p', peers - {e.row}, RankOrder(order, rows))
  {
    var i := Locate(order, ranked, e);
    ghost var k :| 0 <= k < |p| && p[k] == e.row;
    LocatedAt(order, ranked, e, rows, p, peers, i, k);
    SplicedOut(order, rows, ranked, p, i);
    ranked', p' := ranked, p;
    if i < |ranked| && ranked[i].row == e.row && RankKeys(order, ranked[i].key, e.key) == Equal {
      ranked' := ranked[..i] + ranked[i + 1..];
      p' := p[..i] + p[i + 1..];
      RemoveSorted(p, peers, RankOrder(order, rows), i);
    }
  }

  lemma LocatedAt(order: seq<SortKey>, ranked: seq<Entry>, e: Entry, rows: seq<Row>, p: seq<nat>, peers: set<nat>,
                  i: nat, k: nat)
    requires Represents(order, rows, ranked, p) && SortedPartition(p, peers, RankOrder(order, rows))
    requires k < |p| && e == EntryOf(order, rows, p[k])
    requires i <= |ranked| && (forall j :: 0 <= j < i ==> EntryBefore(order, ranked[j], e))
    requires i < |ranked| ==> !EntryBefore(order, ranked[i], e)
    ensures i == k && RankKeys(order, ranked[i].key, e.key) == Equal
  {
    RankKeysAntisymmetric(order, e.key, e.key);
    if i < k { EntryOrder(order, rows, p[i], p[k]); }
  }

  lemma SplicedIn(order: seq<SortKey>, rows: seq<Row>, ranked: seq<Entry>, p: seq<nat>, e: Entry, i: nat)
    requires Represents(order, rows, ranked, p) && i <= |p| && e.row < |rows| && e == EntryOf(order, rows, e.row)
    ensures Represents(order, rows, ranked[..i] + [e] + ranked[i..], p[..i] + [e.row] + p[i..])
  {
  }

  /** Where an absent entry belongs, in terms of slots. */
  lemma BelongsAt(order: seq<SortKey>, ranked: seq<Entry>, e: Entry, rows: seq<Row>, p: seq<nat>, peers: set<nat>,
                  i: nat)
    requires Represents(order, rows, ranked, p) && SortedPartition(p, peers, RankOrder(order, rows))
    requires e.row !in peers && e.row < |rows| && e == EntryOf(order, rows, e.row)
    requires i <= |ranked| && (forall j :: 0 <= j < i ==> EntryBefore(order, ranked[j], e))
    requires i < |ranked| ==> !EntryBefore(order, ranked[i], e)
    ensures SortedPartition(p[..i] + [e.row] + p[i..], peers + {e.row}, RankOrder(order, rows))
  {
    forall j | 0 <= j < |p|
      ensures EntryBefore(order, ranked[j], e) <==> Before(RankOrder(order, rows), NatLt, p[j], e.row)
    {
      EntryOrder(order, rows, p[j], e.row);
    }
    InsertSorted(p, peers, RankOrder(order, rows), i, e.row);
  }

  method InsertEntry(order: seq<SortKey>, ranked: seq<Entry>, e: Entry, ghost rows: seq<Row>, ghost p: seq<nat>,
                     ghost peers: set<nat>)
    returns (ranked': seq<Entry>, ghost p': seq<nat>)
    requires Represents(order, rows, ranked, p) && SortedPartition(p, peers, RankOrder(order, rows))
    requires e.row !in peers && e.row < |rows| && e == EntryOf(order, rows, e.row)
    ensures Represents(order, rows, ranked', p') && SortedPartition(p', peers + {e.row}, RankOrder(order, rows))
  {
    var i := Locate(order, ranked, e);
    BelongsAt(order, ranked, e, rows, p, peers, i);
    SplicedIn(order, rows, ranked, p, e, i);
    ranked' := ranked[..i] + [e] + ranked[i..];
    p' := p[..i] + [e.row] + p[i..];
  }

  // ---- the changes of a window ----

  datatype Change<T> = Change(kind: C.DeltaType, row: nat, data: T)

  predicate Puts(kind: C.DeltaType) { kind == C.Add || kind == C.Update }

  function ApplyChange<T>(v: map<nat, T>, c: Change<T>): map<nat, T> {
    if Puts(c.kind) then v[c.row := c.data] else v - {c.row}
  }

  function ApplyChanges<T>(v: map<nat, T>, changes: seq<Change<T>>): map<nat, T> {
    if changes == [] then v else ApplyChange(ApplyChanges(v, changes[..|changes| - 1]), changes[|changes| - 1])
  }

  lemma {:induction false} ApplyAppend<T>(v: map<nat, T>, a: seq<Change<T>>, b: seq<Change<T>>)
    ensures ApplyChanges(v, a + b) == ApplyChanges(ApplyChanges(v, a), b)
  {
    if b == [] {
      assert a + b == a;
    } else {
      ApplyAppend(v, a, b[..|b| - 1]);
      assert (a + b)[..|a + b| - 1] == a + b[..|b| - 1];
    }
  }

  /** One change per row. */
  ghost predicate OnePerRow<T(!new)>(changes: seq<Change<T>>) {
    forall i, j :: 0 <= i < j < |changes| ==> changes[i].row != changes[j].row
  }

  ghost predicate Changed<T(!new)>(changes: seq<Change<T>>, r: nat) {
    exists i :: 0 <= i < |changes| && changes[i].row == r
  }

  /** Rows without a change keep what they had; a changed row has what its change says. */
  lemma {:induction false} AppliedAt<T(!new)>(v: map<nat, T>, changes: seq<Change<T>>, r: nat)
    requires OnePerRow(changes)
    ensures var w := ApplyChanges(v, changes);
            && (!Changed(changes, r) ==> (r in w <==> r in v) && (r in v ==> w[r] == v[r]))
            && (forall i :: 0 <= i < |changes| && changes[i].row == r ==>
                  (r in w <==> Puts(changes[i].kind)) && (r in w ==> w[r] == changes[i].data))
  {
    if changes != [] {
      var front, last := changes[..|changes| - 1], changes[|changes| - 1];
      AppliedAt(v, front, r);
      if last.row == r {
        assert !Changed(front, r);
        assert forall i :: 0 <= i < |changes| && changes[i].row == r ==> i == |changes| - 1;
      } else {
        assert forall i :: 0 <= i < |front| ==> front[i] == changes[i];
        assert Changed(changes, r) <==> Changed(front, r);
      }
    }
  }

  /** The kind of change a row needs, if any. */
  function Needed(was: set<nat>, now: set<nat>, ranked: set<nat>, row: nat, r: nat): Option<C.DeltaType> {
    if r in now && r !in was then Some(C.Add)
    else if r in was && r !in now then Some(if r in ranked then C.Oof else C.Remove)
    else if r == row && r in was && r in now then Some(C.Update)
    else None
  }

  /** Exactly the needed changes, in some order. */
  ghost predicate IsDiff<T(!new)>(changes: seq<Change<T>>, was: set<nat>, now: set<nat>, ranked: set<nat>, row: nat,
                                  show: nat -> T)
  {
    && OnePerRow(changes)
    && (forall i :: 0 <= i < |changes| ==>
          Needed(was, now, ranked, row, changes[i].row) == Some(changes[i].kind)
            && changes[i].data == show(changes[i].row))
    && (forall r: nat :: Needed(was, now, ranked, row, r).Some? ==> Changed(changes, r))
  }

  ghost function Shown<T>(window: set<nat>, show: nat -> T): map<nat, T> { map r | r in window :: show(r) }

  /** The changes take the old window's contents to the new one's. */
  lemma DiffApplies<T(!new)>(changes: seq<Change<T>>, was: set<nat>, now: set<nat>, ranked: set<nat>, row: nat,
                             before: nat -> T, show: nat -> T)
    requires IsDiff(changes, was, now, ranked, row, show)
    requires forall r: nat :: r in was && r != row ==> before(r) == show(r)
    ensures ApplyChanges(Shown(was, before), changes) == Shown(now, show)
  {
    var v, w := Shown(was, before), ApplyChanges(Shown(was, before), changes);
    forall r: nat ensures r in w <==> r in now
                  ensures r in now ==> w[r] == show(r)
    {
      AppliedAt(v, changes, r);
      if Changed(changes, r) {
        var i :| 0 <= i < |changes| && changes[i].row == r;
      }
    }
  }

  /** Walk a set in whatever order it yields its rows, sending one change for each. */
  method Emit<T(!new)>(changes: seq<Change<T>>, rows: set<nat>, kindOf: nat -> C.DeltaType, show: nat -> T)
    returns (more: seq<Change<T>>)
    requires OnePerRow(changes) && forall r :: r in rows ==> !Changed(changes, r)
    ensures OnePerRow(more) && forall r: nat :: Changed(more, r) <==> Changed(changes, r) || r in rows
    ensures forall i :: 0 <= i < |more| ==>
              more[i] in changes
                || (more[i].row in rows && more[i] == Change(kindOf(more[i].row), more[i].row, show(more[i].row)))
  {
    more := changes;
    var todo := rows;
    while todo != {}
      invariant todo <= rows && OnePerRow(more)
      invariant forall r: nat :: Changed(more, r) <==> Changed(changes, r) || r in rows - todo
      invariant forall i :: 0 <= i < |more| ==>
          more[i] in changes
            || (more[i].row in rows && more[i] == Change(kindOf(more[i].row), more[i].row, show(more[i].row)))
      decreases todo
    {
      var r :| r in todo;
      ghost var had := more;
      more := more + [Change(kindOf(r), r, show(r))];
      ChangedSnoc(had, more[|had|]);
      todo := todo - {r};
    }
  }

  lemma ChangedSnoc<T(!new)>(changes: seq<Change<T>>, c: Change<T>)
    ensures forall r: nat :: Changed(changes + [c], r) <==> Changed(changes, r) || r == c.row
    ensures OnePerRow(changes) && !Changed(changes, c.row) ==> OnePerRow(changes + [c])
  {
    var more := changes + [c];
    forall r: nat ensures Changed(more, r) <==> Changed(changes, r) || r == c.row {
      if r == c.row { assert more[|changes|].row == r; }
      if Changed(changes, r) {
        var i :| 0 <= i < |changes| && changes[i].row == r;
        assert more[i].row == r;
      }
    }
  }

  method Diff<T(!new)>(was: set<nat>, now: set<nat>, ranked: set<nat>, row: nat, show: nat -> T)
    returns (changes: seq<Change<T>>)
    ensures IsDiff(changes, was, now, ranked, row, show)
  {
    changes := Emit([], now - was, r => C.Add, show);
    changes := Emit(changes, was - now, r => if r in ranked then C.Oof else C.Remove, show);
    if row in was && row in now {
      ChangedSnoc(changes, Change(C.Update, row, show(row)));
      changes := changes + [Change(C.Update, row, show(row))];
    }
  }

  // ---- the evaluator ----

  /** The body of a change: the projected cells, without computed columns. */
  function Body(q: Query, store: Store): nat -> OutputRow
    requires forall i :: 0 <= i < |q.projection| ==> q.projection[i] < |store.types|
  {
    Projected(q.(computed := []), store.types, store.rows)
  }

  predicate Limited(q: Query) { q.limit.Some? && q.limit.value > 0 }

  /** What a subscriber to a limited query should see, by slot. */
  ghost function TopView(lib: Library, q: Query, store: Store): map<nat, OutputRow>
    requires store.Valid() && QueryFits(q, store.types) && q.limit.Some?
  {
    Shown(TopRows(lib, q, store, q.limit.value), Body(q, store))
  }

  /** One row of the table was written or appended. */
  ghost predicate Mutated(before: Store, store: Store, row: nat) {
    before.types == store.types && OnlyRowChanged(before.rows, store.rows, row)
  }

  ghost function SlotsOf(ranked: seq<Entry>): seq<nat> { seq(|ranked|, i requires 0 <= i < |ranked| => ranked[i].row) }

  lemma SlotsRepresent(order: seq<SortKey>, rows: seq<Row>, ranked: seq<Entry>, p: seq<nat>)
    requires Represents(order, rows, ranked, p)
    ensures SlotsOf(ranked) == p
  {
  }

  /** `peers` in ranking order, each with the key its row has. */
  ghost predicate RankedAs(order: seq<SortKey>, rows: seq<Row>, ranked: seq<Entry>, rowToKey: map<nat, seq<Value>>,
                           peers: set<nat>)
  {
    && Represents(order, rows, ranked, SlotsOf(ranked))
    && SortedPartition(SlotsOf(ranked), peers, RankOrder(order, rows))
    && rowToKey.Keys == peers
    && forall r :: r in peers ==> r < |rows| && rowToKey[r] == KeyValues(order, rows[r])
  }

  method TakeOut(order: seq<SortKey>, ranked: seq<Entry>, rowToKey: map<nat, seq<Value>>, row: nat,
                 ghost rows: seq<Row>, ghost peers: set<nat>)
    returns (ranked': seq<Entry>, rowToKey': map<nat, seq<Value>>)
    requires RankedAs(order, rows, ranked, rowToKey, peers)
    ensures RankedAs(order, rows, ranked', rowToKey', peers - {row})
  {
    ranked', rowToKey' := ranked, rowToKey;
    if row in rowToKey {
      ghost var p;
      ranked', p := RemoveEntry(order, ranked, Entry(rowToKey[row], row), rows, SlotsOf(ranked), peers);
      SlotsRepresent(order, rows, ranked', p);
      rowToKey' := rowToKey - {row};
    } else {
      assert peers - {row} == peers;
    }
  }

  method PutIn(order: seq<SortKey>, ranked: seq<Entry>, rowToKey: map<nat, seq<Value>>, row: nat, rows: seq<Row>,
               ghost peers: set<nat>)
    returns (ranked': seq<Entry>, rowToKey': map<nat, seq<Value>>)
    requires RankedAs(order, rows, ranked, rowToKey, peers) && row !in peers && row < |rows|
    ensures RankedAs(order, rows, ranked', rowToKey', peers + {row})
  {
    var key := KeyValues(order, rows[row]);
    ghost var p;
    ranked', p := InsertEntry(order, ranked, Entry(key, row), rows, SlotsOf(ranked), peers);
    SlotsRepresent(order, rows, ranked', p);
    rowToKey' := rowToKey[row := key];
  }

  /** The other rows keep their places when one row is mutated. */
  lemma RankFrame(order: seq<SortKey>, before: Store, store: Store, row: nat, ranked: seq<Entry>,
                  rowToKey: map<nat, seq<Value>>, peers: set<nat>)
    requires Mutated(before, store, row) && store.Valid() && KeysFit(order, store.types) && row !in peers
    requires RankedAs(order, before.rows, ranked, rowToKey, peers)
    ensures RankedAs(order, store.rows, ranked, rowToKey, peers)
  {
    var p := SlotsOf(ranked);
    forall i | 0 <= i < |p| ensures p[i] < |store.rows| && ranked[i] == EntryOf(order, store.rows, p[i]) {
      assert p[i] in p;
    }
    RankOrderIsPreorder(order, store);
    Reordered(p, peers, RankOrder(order, before.rows), RankOrder(order, store.rows));
  }

  lemma MatchingAfter(lib: Library, q: Query, before: Store, store: Store, row: nat)
    requires before.Valid() && store.Valid() && QueryFits(q, store.types) && Mutated(before, store, row)
    ensures MatchingSet(lib, q, store) ==
            MatchingSet(lib, q, before) - {row} + if MatchingRow(lib, q.predicate_, store, row) then {row} else {}
  {
  }

  /** The rows of the first entries, in ranking order. */
  method FirstRows(ranked: seq<Entry>, limit: nat) returns (window: set<nat>)
    ensures window == Elements(Take(SlotsOf(ranked), limit))
  {
    window := {};
    var n := if limit < |ranked| then limit else |ranked|;
    ghost var p := SlotsOf(ranked);
    for i := 0 to n
      invariant window == Elements(p[..i])
    {
      window := window + {ranked[i].row};
      assert p[..i + 1] == p[..i] + [p[i]];
    }
    assert Take(p, limit) == p[..n];
  }

  ghost function MatchingUpTo(lib: Library, q: Query, store: Store, n: nat): set<nat>
    requires store.Valid() && QueryFits(q, store.types)
  {
    set r: nat | r < n && MatchingRow(lib, q.predicate_, store, r)
  }

  lemma MatchingStep(lib: Library, q: Query, store: Store, r: nat)
    requires store.Valid() && QueryFits(q, store.types) && r < |store.rows|
    ensures MatchingUpTo(lib, q, store, r + 1) ==
            MatchingUpTo(lib, q, store, r) + if MatchingRow(lib, q.predicate_, store, r) then {r} else {}
  {
  }

  method SeedRanking(lib: Library, q: Query, store: Store) returns (ranked: seq<Entry>, rowToKey: map<nat, seq<Value>>)
    requires store.Valid() && QueryFits(q, store.types)
    ensures RankedAs(q.orderBy, store.rows, ranked, rowToKey, MatchingSet(lib, q, store))
  {
    ranked, rowToKey := [], map[];
    RankOrderIsPreorder(q.orderBy, store);
    for r := 0 to |store.rows|
      invariant RankedAs(q.orderBy, store.rows, ranked, rowToKey, MatchingUpTo(lib, q, store, r))
    {
      MatchingStep(lib, q, store, r);
      if Matches(lib, q.predicate_, store.types, store.rows[r]) {
        ranked, rowToKey := PutIn(q.orderBy, ranked, rowToKey, r, store.rows, MatchingUpTo(lib, q, store, r));
      } else {
        assert MatchingUpTo(lib, q, store, r + 1) == MatchingUpTo(lib, q, store, r);
      }
    }
    assert MatchingUpTo(lib, q, store, |store.rows|) == MatchingSet(lib, q, store);
  }

  /** Rows that were not mutated look the same. */
  lemma BodyFrame(lib: Library, q: Query, before: Store, store: Store, row: nat)
    requires before.Valid() && store.Valid() && QueryFits(q, store.types) && Mutated(before, store, row)
    ensures forall r :: r in MatchingSet(lib, q, before) && r != row ==> Body(q, before)(r) == Body(q, store)(r)
  {
  }

  class TopNSubscription {
    const lib: Library
    const q: Query
    var ranked: seq<Entry>
    var rowToKey: map<nat, seq<Value>>
    var current: set<nat>

    ghost predicate Ranked(store: Store)
      reads this
    {
      && store.Valid() && QueryFits(q, store.types) && q.limit.Some?
      && RankedAs(q.orderBy, store.rows, ranked, rowToKey, MatchingSet(lib, q, store))
    }

    ghost predicate Valid(store: Store)
      reads this
    {
      Ranked(store) && current == TopRows(lib, q, store, q.limit.value)
    }

    /** Every slot whose row matches is ranked, dead or alive. */
    constructor (lib: Library, q: Query, store: Store)
      requires store.Valid() && QueryFits(q, store.types) && Limited(q)
      ensures this.lib == lib && this.q == q && Valid(store)
    {
      var entries, keys := SeedRanking(lib, q, store);
      var window := FirstRows(entries, q.limit.value);
      TakeIsTop(lib, q, store, SlotsOf(entries), q.limit.value);
      this.lib, this.q, ranked, rowToKey, current := lib, q, entries, keys, window;
    }

    /** Take the mutated row out of the ranking, and put it back where it now belongs. */
    method Rerank(row: nat, store: Store, ghost before: Store)
      requires Ranked(before) && store.Valid() && Mutated(before, store, row)
      modifies this`ranked, this`rowToKey
      ensures Ranked(store)
    {
      ghost var peers := MatchingSet(lib, q, before);
      MatchingAfter(lib, q, before, store, row);
      ranked, rowToKey := TakeOut(q.orderBy, ranked, rowToKey, row, before.rows, peers);
      RankFrame(q.orderBy, before, store, row, ranked, rowToKey, peers - {row});
      if Matches(lib, q.predicate_, store.types, store.rows[row]) {
        ranked, rowToKey := PutIn(q.orderBy, ranked, rowToKey, row, store.rows, peers - {row});
      } else {
        assert peers - {row} + {} == peers - {row};
      }
    }

    /** One mutation: the changes take the old window to the new one. */
    method Evaluate(row: nat, store: Store, ghost before: Store) returns (changes: seq<Change<OutputRow>>)
      requires Valid(before) && store.Valid() && Mutated(before, store, row)
      modifies this
      ensures Valid(store)
      ensures IsDiff(changes, old(current), current, MatchingSet(lib, q, store), row, Body(q, store))
      ensures ApplyChanges(TopView(lib, q, before), changes) == TopView(lib, q, store)
    {
      Rerank(row, store, before);
      var window := FirstRows(ranked, q.limit.value);
      TakeIsTop(lib, q, store, SlotsOf(ranked), q.limit.value);
      changes := Diff(current, window, rowToKey.Keys, row, Body(q, store));
      BodyFrame(lib, q, before, store, row);
      DiffApplies(changes, current, window, rowToKey.Keys, row, Body(q, before), Body(q, store));
      current := window;
    }
  }

  // ---- a topic with a limited subscription on it ----

  ghost function TableOf(topic: Topic): Store
    reads topic
  {
    Store(topic.types, topic.rows)
  }

  /** At most one row is mutated. */
  ghost predicate Step(before: Store, store: Store, row: Option<nat>) {
    match row
    case None => store == before
    case Some(r) => r < |store.rows| && Mutated(before, store, r)
  }

  lemma TouchIsStep(rules: Rules, t: Contents, op: TopicOp)
    requires Orderly(rules.types, t) && Topics.Keyed(rules, op)
    ensures Step(Store(rules.types, t.rows), Store(rules.types, Performed(rules, t, op).rows), Touched(rules, t, op))
  {
    OneRowTouched(rules, t, op);
  }

  method Notify(sub: TopNSubscription, row: Option<nat>, store: Store, ghost before: Store)
    returns (changes: seq<Change<OutputRow>>)
    requires sub.Valid(before) && store.Valid() && Step(before, store, row)
    modifies sub
    ensures sub.Valid(store)
    ensures ApplyChanges(TopView(sub.lib, sub.q, before), changes) == TopView(sub.lib, sub.q, store)
  {
    changes := [];
    if row.Some? { changes := sub.Evaluate(row.value, store, before); }
  }

  method FollowOp(topic: Topic, sub: TopNSubscription, op: TopicOp) returns (changes: seq<Change<OutputRow>>)
    requires topic.Valid() && sub.Valid(TableOf(topic)) && Proper(topic.Rules(), op)
    modifies topic, topic.index, sub
    ensures topic.Valid() && sub.Valid(TableOf(topic))
            && topic.State() == Performed(topic.Rules(), old(topic.State()), op)
    ensures ApplyChanges(old(TopView(sub.lib, sub.q, TableOf(topic))), changes) ==
            TopView(sub.lib, sub.q, TableOf(topic))
  {
    ghost var before := TableOf(topic);
    TouchIsStep(topic.Rules(), topic.State(), op);
    var row := ApplyOp(topic, op);
    changes := Notify(sub, row, Store(topic.types, topic.rows), before);
  }

  method FollowOps(topic: Topic, sub: TopNSubscription, ops: seq<TopicOp>) returns (changes: seq<Change<OutputRow>>)
    requires topic.Valid() && sub.Valid(TableOf(topic)) && AllProper(topic.Rules(), ops)
    modifies topic, topic.index, sub
    ensures topic.Valid() && sub.Valid(TableOf(topic))
            && topic.State() == ContentsFrom(topic.Rules(), old(topic.State()), ops)
    ensures ApplyChanges(old(TopView(sub.lib, sub.q, TableOf(topic))), changes) ==
            TopView(sub.lib, sub.q, TableOf(topic))
    decreases |ops|
  {
    changes := [];
    if ops != [] {
      changes := FollowOps(topic, sub, ops[..|ops| - 1]);
      var more := FollowOp(topic, sub, ops[|ops| - 1]);
      ApplyAppend(old(TopView(sub.lib, sub.q, TableOf(topic))), changes, more);
      changes := changes + more;
    }
  }

  // ---- against running the query afresh ----

  /** The ranking compares these rows as a query does. */
  ghost predicate RowsRankAlike(order: seq<SortKey>, a: Row, b: Row) {
    forall k :: 0 <= k < |order| && order[k].col < |a| && order[k].col < |b| ==>
      RanksAlike(a[order[k].col], b[order[k].col])
  }

  lemma {:induction false} RankKeysAgree(order: seq<SortKey>, types: seq<ColumnType>, a: Row, b: Row)
    requires KeysFit(order, types) && RowTyped(types, a) && RowTyped(types, b) && RowsRankAlike(order, a, b)
    ensures RankKeys(order, KeyValues(order, a), KeyValues(order, b)) == CompareRows(order, a, b)
  {
    if order != [] {
      var c := order[0].col;
      RankValuesExact(a[c], b[c], types[c]);
      assert KeyValues(order, a)[1..] == KeyValues(order[1..], a)
             && KeyValues(order, b)[1..] == KeyValues(order[1..], b);
      assert forall k :: 0 <= k < |order[1..]| ==> order[1..][k] == order[k + 1];
      RankKeysAgree(order[1..], types, a, b);
    }
  }

  /** The ranking and the query put any two matching rows the same way round. */
  ghost predicate OrderedAlike(lib: Library, q: Query, store: Store)
    requires store.Valid() && QueryFits(q, store.types)
  {
    forall a, b :: a in MatchingSet(lib, q, store) && b in MatchingSet(lib, q, store) && a < b ==>
      RowLe(q.orderBy, store.rows, a, b) == RankLe(q.orderBy, store.rows, a, b)
  }

  lemma AlikeIsOrderedAlike(lib: Library, q: Query, store: Store)
    requires store.Valid() && QueryFits(q, store.types)
    requires forall a, b :: a in MatchingSet(lib, q, store) && b in MatchingSet(lib, q, store) ==>
               RowsRankAlike(q.orderBy, store.rows[a], store.rows[b])
    ensures OrderedAlike(lib, q, store)
  {
    forall a, b | a in MatchingSet(lib, q, store) && b in MatchingSet(lib, q, store) && a < b
      ensures RowLe(q.orderBy, store.rows, a, b) == RankLe(q.orderBy, store.rows, a, b)
    {
      RankKeysAgree(q.orderBy, store.types, store.rows[a], store.rows[b]);
    }
  }

  ghost predicate PairsAgree(peers: set<nat>, le: (nat, nat) -> bool, le': (nat, nat) -> bool) {
    forall a, b :: a in peers && b in peers && a < b ==> le(a, b) == le'(a, b)
  }

  /** Two total preorders, ties broken by slot, list a set alike exactly if they agree on its pairs. */
  lemma SameListing(p: seq<nat>, p': seq<nat>, peers: set<nat>, le: (nat, nat) -> bool, le': (nat, nat) -> bool)
    requires SortedPartition(p, peers, le) && SortedPartition(p', peers, le')
    ensures p == p' <==> PairsAgree(peers, le, le')
  {
    if PairsAgree(peers, le, le') {
      forall i, j | 0 <= i < j < |p| ensures Before(le', NatLt, p[i], p[j]) {
        assert p[i] in p && p[j] in p;
        assert Before(le, NatLt, p[i], p[j]);
      }
      PartitionUnique(p, p', peers, le');
    }
    if p == p' {
      forall a, b | a in peers && b in peers && a < b ensures le(a, b) == le'(a, b) {
        assert a in p && b in p;
        var i, j :| 0 <= i < |p| && 0 <= j < |p| && p[i] == a && p[j] == b;
        if i < j {
          assert Before(le, NatLt, p[i], p[j]) && Before(le', NatLt, p[i], p[j]);
        } else {
          assert Before(le, NatLt, p[j], p[i]) && Before(le', NatLt, p[j], p[i]);
        }
      }
    }
  }

  lemma RankingExists(lib: Library, q: Query, store: Store) returns (p: seq<nat>)
    requires store.Valid() && QueryFits(q, store.types)
    ensures SortedPartition(p, MatchingSet(lib, q, store), RankOrder(q.orderBy, store.rows))
  {
    var matching, le := Scan(lib, q.predicate_, store, |store.rows|), RankOrder(q.orderBy, store.rows);
    ScanIsExact(lib, q.predicate_, store, |store.rows|);
    RankOrderIsPreorder(q.orderBy, store);
    StableSortAscends(matching, le, NatLt);
    p := StableSort(matching, le);
    forall r: nat ensures r in p <==> r in MatchingSet(lib, q, store) { SortKeepsElements(matching, le, r); }
  }

  lemma QueryOrderIsSorted(lib: Library, q: Query, store: Store)
    requires store.Valid() && QueryFits(q, store.types)
    ensures SortedPartition(Matching(lib, q, store), MatchingSet(lib, q, store), RowOrder(q.orderBy, store.rows))
  {
    var p, le := Matching(lib, q, store), RowOrder(q.orderBy, store.rows);
    ScanOrder(lib, q, store);
    RowOrderIsPreorder(q.orderBy, store);
    forall i, j | 0 <= i < j < |p| ensures Before(le, NatLt, p[i], p[j]) {
      assert Before(le, (a: nat, b: nat) => a < b, p[i], p[j]);
    }
  }

  /** The sorted result of a query, before LIMIT, is the ranking exactly if pairs are ordered alike. */
  lemma QueryOrderExact(lib: Library, q: Query, store: Store, p: seq<nat>)
    requires store.Valid() && QueryFits(q, store.types)
    requires SortedPartition(p, MatchingSet(lib, q, store), RankOrder(q.orderBy, store.rows))
    ensures Matching(lib, q, store) == p <==> OrderedAlike(lib, q, store)
  {
    QueryOrderIsSorted(lib, q, store);
    SameListing(Matching(lib, q, store), p, MatchingSet(lib, q, store), RowOrder(q.orderBy, store.rows),
                RankOrder(q.orderBy, store.rows));
    assert PairsAgree(MatchingSet(lib, q, store), RowOrder(q.orderBy, store.rows),
                      RankOrder(q.orderBy, store.rows)) <==>
           OrderedAlike(lib, q, store);
  }

  lemma {:induction false} PrefixSetsDecide(p: seq<nat>, p': seq<nat>, n: nat)
    requires Distinct(p) && Distinct(p') && n <= |p| == |p'|
    requires forall k: nat :: Elements(Take(p, k)) == Elements(Take(p', k))
    ensures p[..n] == p'[..n]
  {
    if n > 0 {
      PrefixSetsDecide(p, p', n - 1);
      forall i | 0 <= i < n - 1 ensures p[i] == p'[i] { assert p[..n - 1][i] == p'[..n - 1][i]; }
      assert Take(p, n) == p[..n] && Take(p', n) == p'[..n];
      assert p[n - 1] in Elements(Take(p, n)) by { assert p[..n][n - 1] == p[n - 1]; }
      var j :| 0 <= j < n && p'[j] == p[n - 1];
      assert p[..n] == p[..n - 1] + [p[n - 1]] && p'[..n] == p'[..n - 1] + [p'[n - 1]];
    }
  }

  lemma ListsCount(p: seq<nat>, p': seq<nat>, peers: set<nat>, le: (nat, nat) -> bool, le': (nat, nat) -> bool)
    requires SortedPartition(p, peers, le) && SortedPartition(p', peers, le')
    ensures Distinct(p) && Distinct(p') && |p| == |p'|
  {
    PartitionDistinct(p, peers, le);
    PartitionDistinct(p', peers, le');
    DistinctCount(p);
    DistinctCount(p');
    assert Elements(p) == peers == Elements(p');
  }

  lemma PrefixSetsExact(m: seq<nat>, p: seq<nat>, peers: set<nat>, le: (nat, nat) -> bool, le': (nat, nat) -> bool)
    requires SortedPartition(m, peers, le) && SortedPartition(p, peers, le')
    ensures (forall n: nat :: Elements(Take(m, n)) == Elements(Take(p, n))) <==> m == p
  {
    if forall n: nat :: Elements(Take(m, n)) == Elements(Take(p, n)) {
      ListsCount(m, p, peers, le, le');
      PrefixSetsDecide(m, p, |p|);
      assert m[..|p|] == m && p[..|p|] == p;
    }
  }

  /** Whatever the limit, the window is the first page of the query, exactly if pairs are ordered alike. */
  lemma WindowsExact(lib: Library, q: Query, store: Store)
    requires store.Valid() && QueryFits(q, store.types)
    ensures (forall n: nat :: Elements(Take(Matching(lib, q, store), n)) == TopRows(lib, q, store, n)) <==>
            OrderedAlike(lib, q, store)
  {
    var p := RankingExists(lib, q, store);
    var m := Matching(lib, q, store);
    QueryOrderExact(lib, q, store, p);
    QueryOrderIsSorted(lib, q, store);
    PrefixSetsExact(m, p, MatchingSet(lib, q, store), RowOrder(q.orderBy, store.rows),
                    RankOrder(q.orderBy, store.rows));
    forall n: nat ensures Elements(Take(p, n)) == TopRows(lib, q, store, n) { TakeIsTop(lib, q, store, p, n); }
  }

  lemma PageIsTop(lib: Library, q: Query, store: Store)
    requires store.Valid() && QueryFits(q, store.types) && OrderedAlike(lib, q, store) && q.limit.Some?
             && q.offset.None?
    ensures Elements(Page(lib, q, store)) == TopRows(lib, q, store, q.limit.value)
  {
    WindowsExact(lib, q, store);
    assert Page(lib, q, store) == Take(Matching(lib, q, store), q.limit.value);
  }

  /** Deleted rows stay out of the ranking exactly if there are none or the filter rejects a row of nulls. */
  lemma RankedAreLive(lib: Library, q: Query, types: seq<ColumnType>, rows: seq<Row>, keyToRow: map<string, nat>,
                      free: seq<nat>)
    requires Store(types, rows).Valid() && QueryFits(q, types) && Slots(types, rows, keyToRow, free)
             && NoLeak(rows, keyToRow, free)
    ensures MatchingSet(lib, q, Store(types, rows)) <= LiveRows(keyToRow) <==>
            free == [] || !Matches(lib, q.predicate_, types, NullRow(types))
  {
    var matching := MatchingSet(lib, q, Store(types, rows));
    if free != [] && Matches(lib, q.predicate_, types, NullRow(types)) {
      assert free[0] in matching;
      assert free[0] !in LiveRows(keyToRow);
    } else {
      forall r | r in matching ensures r in LiveRows(keyToRow) {
        assert r !in free;
        assert Live(keyToRow, r);
      }
    }
  }

  /** When a limited subscription can be compared with its query. */
  ghost predicate Faithful(lib: Library, q: Query, store: Store, free: seq<nat>)
    requires store.Valid() && QueryFits(q, store.types)
  {
    && q.offset.None? && q.computed == [] && OrderedAlike(lib, q, store)
    && (free == [] || !Matches(lib, q.predicate_, store.types, NullRow(store.types)))
  }

  /** What a query returns, by slot. */
  ghost function ResultView(lib: Library, q: Query, store: Store, live: set<nat>): map<nat, OutputRow>
    requires store.Valid() && QueryFits(q, store.types)
  {
    Shown(Elements(LiveOf(Page(lib, q, store), live)), Projected(q, store.types, store.rows))
  }

  /** Then the subscriber sees what the query would return now. */
  lemma TopViewIsResult(lib: Library, q: Query, types: seq<ColumnType>, rows: seq<Row>, keyToRow: map<string, nat>,
                        free: seq<nat>)
    requires Store(types, rows).Valid() && QueryFits(q, types) && Slots(types, rows, keyToRow, free)
             && NoLeak(rows, keyToRow, free)
    requires q.limit.Some? && Faithful(lib, q, Store(types, rows), free)
    ensures TopView(lib, q, Store(types, rows)) == ResultView(lib, q, Store(types, rows), LiveRows(keyToRow))
  {
    var store := Store(types, rows);
    var page := Page(lib, q, store);
    RankedAreLive(lib, q, types, rows, keyToRow, free);
    PageIsTop(lib, q, store);
    forall i | 0 <= i < |page| ensures page[i] in LiveRows(keyToRow) {
      assert page[i] in Elements(page);
    }
    LiveOfLength(page, LiveRows(keyToRow));
    assert q.(computed := []) == q;
  }

  /**
   Subscribe to a limited query, then publish and delete at will: the changes take
   the first window to the last, and where subscription and query can be compared
   the last window is what the query would return.
   */
  method RunTopN(topic: Topic, lib: Library, q: Query, ops: seq<TopicOp>)
    returns (start: map<nat, OutputRow>, changes: seq<Change<OutputRow>>)
    requires topic.Valid() && AllAccounted(topic.State()) && QueryFits(q, topic.types) && Limited(q)
    requires AllProper(topic.Rules(), ops)
    modifies topic, topic.index
    ensures topic.Valid() && topic.Records() == SowAfter(topic.Rules(), old(topic.Records()), ops)
    ensures start == old(TopView(lib, q, TableOf(topic)))
    ensures ApplyChanges(start, changes) == TopView(lib, q, TableOf(topic))
    ensures Faithful(lib, q, TableOf(topic), topic.freeSlots) ==>
              ApplyChanges(start, changes) == ResultView(lib, q, TableOf(topic), LiveRows(topic.keyToRow))
  {
    var store := Store(topic.types, topic.rows);
    var sub := new TopNSubscription(lib, q, store);
    var body := Body(q, store);
    start := map r | r in sub.current :: body(r);
    KeyedRunIsMap(topic.Rules(), topic.State(), ops);
    changes := FollowOps(topic, sub, ops);
    if Faithful(lib, q, TableOf(topic), topic.freeSlots) {
      TopViewIsResult(lib, q, topic.types, topic.rows, topic.keyToRow, topic.freeSlots);
    }
  }

  // ---- what goes wrong outside these conditions ----

  lemma TopOf(lib: Library, q: Query, store: Store, p: seq<nat>)
    requires store.Valid() && QueryFits(q, store.types)
    requires Lists(p, MatchingSet(lib, q, store)) && AscendsBy(RankOrder(q.orderBy, store.rows), NatLt, p)
    ensures forall limit: nat :: TopRows(lib, q, store, limit) == Elements(Take(p, limit))
  {
    RankOrderIsPreorder(q.orderBy, store);
    forall limit: nat ensures TopRows(lib, q, store, limit) == Elements(Take(p, limit)) {
      TakeIsTop(lib, q, store, p, limit);
    }
  }

  /** A deleted row that the filter still accepts keeps its place in the window. */
  lemma DeletedRowStaysRanked(lib: Library, q: Query, types: seq<ColumnType>)
    requires QueryFits(q, types) && Matches(lib, q.predicate_, types, NullRow(types))
    ensures TopRows(lib, q, Store(types, [NullRow(types)]), 1) == {0}
  {
    var store := Store(types, [NullRow(types)]);
    TopOf(lib, q, store, [0]);
    assert Take([0], 1) == [0];
  }

  const ByTime: Query := Query(Everything, [SortKey(0, true)], None, Some(1), [], [])
  const LateThenEarly: Store := Store([TimestampType], [[Timestamp(2)], [Timestamp(1)]])

  lemma SortSwaps<T>(x: T, y: T, le: (T, T) -> bool)
    requires !le(x, y)
    ensures StableSort([x, y], le) == [y, x]
  {
    assert [x, y][..1] == [x] && [x][..0] == [];
    assert StableSort([x], le) == [x];
  }

  lemma EverythingScanned(lib: Library, store: Store)
    requires store.Valid() && |store.rows| == 2
    ensures Scan(lib, Everything, store, 2) == [0, 1]
  {
    assert Scan(lib, Everything, store, 0) == [];
    assert Scan(lib, Everything, store, 1) == [0];
  }

  lemma {:induction false} TimesTie(order: seq<SortKey>, a: Row, b: Row)
    requires |order| == |a| == |b| == 1 && order[0].col == 0 && a[0].Timestamp? && b[0].Timestamp?
    ensures RankKeys(order, KeyValues(order, a), KeyValues(order, b)) == Equal
  {
  }

  lemma {:induction false} WindowByTime(lib: Library)
    requires LateThenEarly.Valid() && QueryFits(ByTime, LateThenEarly.types)
    ensures TopRows(lib, ByTime, LateThenEarly, 1) == {0}
  {
    var both: seq<nat> := [0, 1];
    TimesTie(ByTime.orderBy, LateThenEarly.rows[0], LateThenEarly.rows[1]);
    assert RankOrder(ByTime.orderBy, LateThenEarly.rows)(0, 1);
    TopOf(lib, ByTime, LateThenEarly, both);
    assert Take(both, 1) == [0];
  }

  lemma {:induction false} LaterIsGreater(order: seq<SortKey>, a: Row, b: Row)
    requires order == [SortKey(0, true)] && |a| == |b| == 1
    requires a[0].Timestamp? && b[0].Timestamp? && a[0].t > b[0].t && !b[0].IsNull()
    ensures CompareRows(order, a, b) == Greater
  {
  }

  lemma {:induction false} OrderedByTime(rows: seq<nat>)
    requires rows == [0, 1]
    ensures Ordered(ByTime, LateThenEarly, rows) == [1, 0]
  {
    var late, early := LateThenEarly.rows[0], LateThenEarly.rows[1];
    LaterIsGreater(ByTime.orderBy, late, early);
    SortSwaps<nat>(0, 1, RowOrder(ByTime.orderBy, LateThenEarly.rows));
  }

  lemma {:induction false} PageByTime(lib: Library)
    requires LateThenEarly.Valid() && QueryFits(ByTime, LateThenEarly.types)
    ensures Page(lib, ByTime, LateThenEarly) == [1]
  {
    EverythingScanned(lib, LateThenEarly);
    OrderedByTime([0, 1]);
    assert SliceOf([1, 0], None, Some(1)) == [1];
  }

  /** Ordered by a timestamp column, the window keeps the lowest slot and the query the earliest time. */
  lemma TimestampsAreNotRanked(lib: Library)
    ensures LateThenEarly.Valid() && QueryFits(ByTime, LateThenEarly.types)
    ensures TopRows(lib, ByTime, LateThenEarly, 1) == {0} && Page(lib, ByTime, LateThenEarly) == [1]
  {
    WindowByTime(lib);
    PageByTime(lib);
  }
}
