/**
 Row-oriented subscriptions: the evaluator keeps the set of rows a subscription
 holds and turns each mutation into at most one delta.
 */
module RowSubscriptions {
  import opened Wrappers
  import opened Values
  import opened Predicates
  import opened Conflation
  import PredicateIndexes
  import opened Topics

  /** A filter and the text sent for a row; the text stands for projection and encoding. */
  datatype Feed = Feed(lib: Library, predicate_: Predicate, show: Row -> string)

  /** Whether a slot is in the subscription, from the row it holds. */
  predicate Selects(f: Feed, types: seq<ColumnType>, row: Row)
    requires Fits(f.predicate_, types) && RowTyped(types, row)
  {
    Matches(f.lib, f.predicate_, types, row)
  }

  predicate Table(types: seq<ColumnType>, rows: seq<Row>, keyToRow: map<string, nat>) {
    && (forall r :: 0 <= r < |rows| ==> RowTyped(types, rows[r]))
    && (forall k :: k in keyToRow ==> keyToRow[k] < |rows|)
    && (forall k, k' :: k in keyToRow && k' in keyToRow && keyToRow[k] == keyToRow[k'] ==> k == k')
  }

  /** What a subscriber should see: the selected records, by key. */
  function Visible(f: Feed, types: seq<ColumnType>, rows: seq<Row>, keyToRow: map<string, nat>): Conflation.View<string>
    requires Fits(f.predicate_, types) && Table(types, rows, keyToRow)
  {
    map k | k in keyToRow && Selects(f, types, rows[keyToRow[k]]) :: f.show(rows[keyToRow[k]])
  }

  /** A live slot is active exactly if its row is selected; nothing is said of dead slots. */
  ghost predicate Tracks(f: Feed, types: seq<ColumnType>, rows: seq<Row>, keyToRow: map<string, nat>, active: set<nat>)
    requires Fits(f.predicate_, types) && Table(types, rows, keyToRow)
  {
    forall k :: k in keyToRow ==> (keyToRow[k] in active <==> Selects(f, types, rows[keyToRow[k]]))
  }

  /** No dead slot is active. */
  ghost predicate NoGhost(keyToRow: map<string, nat>, active: set<nat>) {
    forall s :: s in active ==> Live(keyToRow, s)
  }

  /** The record the subscription holds on a slot. */
  ghost function OccupantOf(f: Feed, types: seq<ColumnType>, rows: seq<Row>, keyToRow: map<string, nat>): Occupancy
    requires Fits(f.predicate_, types) && Table(types, rows, keyToRow)
  {
    (s: nat) =>
      if k :| k in keyToRow && keyToRow[k] == s && Selects(f, types, rows[s]) then Some(k) else None
  }

  lemma OccupantIs(f: Feed, types: seq<ColumnType>, rows: seq<Row>, keyToRow: map<string, nat>, s: nat, k: string)
    requires Fits(f.predicate_, types) && Table(types, rows, keyToRow)
    ensures OccupantOf(f, types, rows, keyToRow)(s) == Some(k) <==>
            k in keyToRow && keyToRow[k] == s && Selects(f, types, rows[s])
  {
  }

  lemma OccupancyAgrees(f: Feed, types: seq<ColumnType>, rows: seq<Row>, keyToRow: map<string, nat>)
    requires Fits(f.predicate_, types) && Table(types, rows, keyToRow)
    ensures Agrees(OccupantOf(f, types, rows, keyToRow), Visible(f, types, rows, keyToRow))
  {
    var occ, v := OccupantOf(f, types, rows, keyToRow), Visible(f, types, rows, keyToRow);
    forall k, s: nat ensures occ(s) == Some(k) <==> k in keyToRow && keyToRow[k] == s && Selects(f, types, rows[s]) {
      OccupantIs(f, types, rows, keyToRow, s, k);
    }
    forall k ensures k in v <==> exists s: nat :: occ(s) == Some(k) {
      if k in v { assert occ(keyToRow[k]) == Some(k); }
    }
  }

  lemma OnceEach(f: Feed, types: seq<ColumnType>, rows: seq<Row>, keyToRow: map<string, nat>)
    requires Fits(f.predicate_, types) && Table(types, rows, keyToRow)
    ensures OneSlotEach(OccupantOf(f, types, rows, keyToRow))
  {
    OccupancyAgrees(f, types, rows, keyToRow);
  }

  // ---- one mutation ----

  /** The delta of a mutation, from whether the slot was held and whether it is selected now. */
  function Reaction(was: bool, now: bool, upsert: bool, slot: nat, key: string, text: string): Option<Delta<string>> {
    if now && !was then Some(Delta(DeltaType.Add, slot, key, text))
    else if now then Some(Delta(DeltaType.Update, slot, key, text))
    else if was then Some(Delta(if upsert then Oof else DeltaType.Remove, slot, key, text))
    else None
  }

  function React(v: Conflation.View<string>, d: Option<Delta<string>>): Conflation.View<string> {
    if d.Some? then Apply(v, d.value) else v
  }

  /** A publish of `key` into `slot`. */
  ghost predicate Published(types: seq<ColumnType>, rows: seq<Row>, keys: map<string, nat>, rows': seq<Row>,
                            keys': map<string, nat>,
                            key: string, slot: nat) {
    Table(types, rows, keys) && Table(types, rows', keys') && OnlyRowChanged(rows, rows', slot)
      && UpsertedKey(keys, keys', key, slot)
  }

  /** A delete of `key` from `slot`. */
  ghost predicate Deleted(types: seq<ColumnType>, rows: seq<Row>, keys: map<string, nat>, rows': seq<Row>,
                          keys': map<string, nat>,
                          key: string, slot: nat) {
    && Table(types, rows, keys) && Table(types, rows', keys') && OnlyRowChanged(rows, rows', slot)
    && key in keys && keys[key] == slot && keys' == keys - {key}
  }

  lemma OtherRecords(types: seq<ColumnType>, rows: seq<Row>, keys: map<string, nat>, rows': seq<Row>,
                     keys': map<string, nat>,
                     key: string, slot: nat, k: string)
    requires Published(types, rows, keys, rows', keys', key, slot)
             || Deleted(types, rows, keys, rows', keys', key, slot)
    requires k != key
    ensures k in keys' <==> k in keys
    ensures k in keys ==> keys'[k] == keys[k] != slot && rows'[keys[k]] == rows[keys[k]]
  {
    if k in keys && Published(types, rows, keys, rows', keys', key, slot) {
      assert keys'[k] == keys[k] && keys'[key] == slot;
    }
  }

  /** What the subscriber should see of one record. */
  ghost function Entry(f: Feed, types: seq<ColumnType>, rows: seq<Row>, keys: map<string, nat>,
                       k: string): Option<string>
    requires Fits(f.predicate_, types) && Table(types, rows, keys)
  {
    if k in keys && Selects(f, types, rows[keys[k]]) then Some(f.show(rows[keys[k]])) else None
  }

  lemma VisibleEntry(f: Feed, types: seq<ColumnType>, rows: seq<Row>, keys: map<string, nat>, k: string)
    requires Fits(f.predicate_, types) && Table(types, rows, keys)
    ensures Lookup(Visible(f, types, rows, keys), k) == Entry(f, types, rows, keys, k)
  {
  }

  lemma ReactLookup(v: Conflation.View<string>, d: Option<Delta<string>>, k: string)
    ensures Lookup(React(v, d), k) == if d.Some? && d.value.key == k then Effect(d.value) else Lookup(v, k)
  {
  }

  lemma SameLookups(a: Conflation.View<string>, b: Conflation.View<string>)
    requires forall k :: Lookup(a, k) == Lookup(b, k)
    ensures a == b
  {
    assert forall k :: k in a ==> Lookup(b, k) == Some(a[k]);
    assert forall k :: k in b ==> Lookup(a, k) == Some(b[k]);
  }

  /** The delta of a mutation of `key` on `slot`; a delete carries an empty body. */
  function DeltaOf(f: Feed, types: seq<ColumnType>, active: set<nat>, row: Row, key: string, slot: nat,
                   upsert: bool): Option<Delta<string>>
    requires Fits(f.predicate_, types) && RowTyped(types, row)
  {
    Reaction(slot in active, upsert && Selects(f, types, row), upsert, slot, key, if upsert then f.show(row) else "")
  }

  function ActiveAfter(f: Feed, types: seq<ColumnType>, active: set<nat>, row: Row, slot: nat, upsert: bool): set<nat>
    requires Fits(f.predicate_, types) && RowTyped(types, row)
  {
    if upsert && Selects(f, types, row) then active + {slot} else active - {slot}
  }

  /** A publish or a delete of a record. */
  ghost predicate Mutation(types: seq<ColumnType>, rows: seq<Row>, keys: map<string, nat>, rows': seq<Row>,
                           keys': map<string, nat>,
                           key: string, slot: nat, upsert: bool) {
    if upsert then Published(types, rows, keys, rows', keys', key, slot)
    else Deleted(types, rows, keys, rows', keys', key, slot)
  }

  lemma EntryReacts(f: Feed, types: seq<ColumnType>, rows: seq<Row>, keys: map<string, nat>, rows': seq<Row>,
                    keys': map<string, nat>,
                    active: set<nat>, key: string, slot: nat, upsert: bool, k: string)
    requires Fits(f.predicate_, types) && Mutation(types, rows, keys, rows', keys', key, slot, upsert)
    requires Tracks(f, types, rows, keys, active)
    ensures var d := DeltaOf(f, types, active, rows'[slot], key, slot, upsert);
            Entry(f, types, rows', keys', k) ==
            if d.Some? && k == key then Effect(d.value) else Entry(f, types, rows, keys, k)
  {
    if k != key { OtherRecords(types, rows, keys, rows', keys', key, slot, k); }
  }

  /** The delta takes what the subscriber should see from before the mutation to after it. */
  lemma MutationReacts(f: Feed, types: seq<ColumnType>, rows: seq<Row>, keys: map<string, nat>, rows': seq<Row>,
                       keys': map<string, nat>,
                       active: set<nat>, key: string, slot: nat, upsert: bool)
    requires Fits(f.predicate_, types) && Mutation(types, rows, keys, rows', keys', key, slot, upsert)
    requires Tracks(f, types, rows, keys, active)
    ensures Visible(f, types, rows', keys') ==
            React(Visible(f, types, rows, keys), DeltaOf(f, types, active, rows'[slot], key, slot, upsert))
  {
    var d := DeltaOf(f, types, active, rows'[slot], key, slot, upsert);
    var v, v' := Visible(f, types, rows, keys), Visible(f, types, rows', keys');
    forall k ensures Lookup(v', k) == Lookup(React(v, d), k) {
      VisibleEntry(f, types, rows, keys, k);
      VisibleEntry(f, types, rows', keys', k);
      ReactLookup(v, d, k);
      EntryReacts(f, types, rows, keys, rows', keys', active, key, slot, upsert, k);
    }
    SameLookups(v', React(v, d));
  }

  lemma TracksAfter(f: Feed, types: seq<ColumnType>, rows: seq<Row>, keys: map<string, nat>, rows': seq<Row>,
                    keys': map<string, nat>,
                    active: set<nat>, key: string, slot: nat, upsert: bool)
    requires Fits(f.predicate_, types) && Mutation(types, rows, keys, rows', keys', key, slot, upsert)
    requires Tracks(f, types, rows, keys, active)
    ensures Tracks(f, types, rows', keys', ActiveAfter(f, types, active, rows'[slot], slot, upsert))
  {
    var active' := ActiveAfter(f, types, active, rows'[slot], slot, upsert);
    forall k | k in keys' ensures keys'[k] in active' <==> Selects(f, types, rows'[keys'[k]]) {
      if k != key { OtherRecords(types, rows, keys, rows', keys', key, slot, k); }
    }
  }

  lemma NoGhostAfter(f: Feed, types: seq<ColumnType>, rows: seq<Row>, keys: map<string, nat>, rows': seq<Row>,
                     keys': map<string, nat>,
                     active: set<nat>, key: string, slot: nat, upsert: bool)
    requires Fits(f.predicate_, types) && Mutation(types, rows, keys, rows', keys', key, slot, upsert)
    requires NoGhost(keys, active)
    ensures NoGhost(keys', ActiveAfter(f, types, active, rows'[slot], slot, upsert))
  {
    forall s | s in ActiveAfter(f, types, active, rows'[slot], slot, upsert) ensures Live(keys', s) {
      if s == slot {
        assert keys'[key] == s;
      } else {
        var k :| k in keys && keys[k] == s;
        assert k in keys' && keys'[k] == s;
      }
    }
  }

  // ---- which deltas are legal ----

  ghost predicate SameOccupancy(a: Occupancy, b: Occupancy) { forall s: nat :: a(s) == b(s) }

  /** Who holds the mutated slot, before and after. */
  lemma SlotOccupant(f: Feed, types: seq<ColumnType>, rows: seq<Row>, keys: map<string, nat>, rows': seq<Row>,
                     keys': map<string, nat>,
                     active: set<nat>, key: string, slot: nat, upsert: bool)
    requires Fits(f.predicate_, types) && Mutation(types, rows, keys, rows', keys', key, slot, upsert)
    requires Tracks(f, types, rows, keys, active) && NoGhost(keys, active)
    ensures OccupantOf(f, types, rows, keys)(slot) == if slot in active then Some(key) else None
    ensures OccupantOf(f, types, rows', keys')(slot) ==
            if upsert && Selects(f, types, rows'[slot]) then Some(key) else None
  {
    var occ, occ' := OccupantOf(f, types, rows, keys), OccupantOf(f, types, rows', keys');
    forall k: string ensures occ(slot) == Some(k) <==> k == key && slot in active {
      OccupantIs(f, types, rows, keys, slot, k);
      if k != key { OtherRecords(types, rows, keys, rows', keys', key, slot, k); }
      if k == key && slot in active {
        var j :| j in keys && keys[j] == slot;
        if j != key { OtherRecords(types, rows, keys, rows', keys', key, slot, j); }
      }
    }
    forall k: string ensures occ'(slot) == Some(k) <==> k == key && upsert && Selects(f, types, rows'[slot]) {
      OccupantIs(f, types, rows', keys', slot, k);
      if k != key { OtherRecords(types, rows, keys, rows', keys', key, slot, k); }
    }
    if occ(slot).Some? { assert occ(slot) == Some(occ(slot).value); }
    if occ'(slot).Some? { assert occ'(slot) == Some(occ'(slot).value); }
  }

  lemma OtherOccupant(f: Feed, types: seq<ColumnType>, rows: seq<Row>, keys: map<string, nat>, rows': seq<Row>,
                      keys': map<string, nat>,
                      key: string, slot: nat, upsert: bool, s: nat)
    requires Fits(f.predicate_, types) && Mutation(types, rows, keys, rows', keys', key, slot, upsert) && s != slot
    ensures OccupantOf(f, types, rows', keys')(s) == OccupantOf(f, types, rows, keys)(s)
  {
    var occ, occ' := OccupantOf(f, types, rows, keys), OccupantOf(f, types, rows', keys');
    forall k: string ensures occ(s) == Some(k) <==> occ'(s) == Some(k) {
      OccupantIs(f, types, rows, keys, s, k);
      OccupantIs(f, types, rows', keys', s, k);
      if k != key { OtherRecords(types, rows, keys, rows', keys', key, slot, k); }
    }
    if occ(s).Some? { assert occ(s) == Some(occ(s).value); }
    if occ'(s).Some? { assert occ'(s) == Some(occ'(s).value); }
  }

  function Sent(d: Option<Delta<string>>): seq<Delta<string>> { if d.Some? then [d.value] else [] }

  lemma OneOnSlot(ds: seq<Delta<string>>, s: nat)
    requires |ds| <= 1
    ensures OnSlot(ds, s) == if ds != [] && ds[0].row == s then ds else []
  {
    if ds != [] { assert ds[..|ds| - 1] == []; }
  }

  lemma OneDelta(occ: Occupancy, occ': Occupancy, slot: nat, ds: seq<Delta<string>>)
    requires |ds| <= 1 && (ds != [] ==> ds[0].row == slot)
    requires occ'(slot) == Occupant(occ(slot), ds) && forall s: nat :: s != slot ==> occ'(s) == occ(s)
    ensures SameOccupancy(After(occ, ds), occ')
  {
    forall s: nat ensures After(occ, ds)(s) == occ'(s) { OneOnSlot(ds, s); }
  }

  /** Without ghosts the delta fits the slot it travels under, and leaves the right occupant there. */
  lemma MutationIsLegal(f: Feed, types: seq<ColumnType>, rows: seq<Row>, keys: map<string, nat>, rows': seq<Row>,
                        keys': map<string, nat>,
                        active: set<nat>, key: string, slot: nat, upsert: bool)
    requires Fits(f.predicate_, types) && Mutation(types, rows, keys, rows', keys', key, slot, upsert)
    requires Tracks(f, types, rows, keys, active) && NoGhost(keys, active)
    ensures var occ, ds := OccupantOf(f, types, rows, keys),
                Sent(DeltaOf(f, types, active, rows'[slot], key, slot, upsert));
            && (ds != [] ==> LegalStep(occ(ds[0].row), ds[0]))
            && SameOccupancy(After(occ, ds), OccupantOf(f, types, rows', keys'))
  {
    var occ, occ' := OccupantOf(f, types, rows, keys), OccupantOf(f, types, rows', keys');
    SlotOccupant(f, types, rows, keys, rows', keys', active, key, slot, upsert);
    forall s: nat | s != slot ensures occ'(s) == occ(s) {
      OtherOccupant(f, types, rows, keys, rows', keys', key, slot, upsert, s);
    }
    OneDelta(occ, occ', slot, Sent(DeltaOf(f, types, active, rows'[slot], key, slot, upsert)));
  }

  lemma {:induction false} LegalSnocOnSlot(o: Option<string>, raw: seq<Delta<string>>, d: Delta<string>, s: nat)
    requires LegalOnSlot(o, OnSlot(raw, s)) && (d.row == s ==> LegalStep(Occupant(o, OnSlot(raw, s)), d))
    ensures LegalOnSlot(o, OnSlot(raw + [d], s))
    ensures Occupant(o, OnSlot(raw + [d], s)) == Occupant(Occupant(o, OnSlot(raw, s)), OnSlot([d], s))
  {
    OnSlotSnoc(raw, d, s);
    OneOnSlot([d], s);
    if d.row == s {
      var ws, all := OnSlot(raw, s), OnSlot(raw, s) + [d];
      assert all[..|all| - 1] == ws && all[|all| - 1] == d;
    }
  }

  /** A legal stream stays legal when a delta that fits is appended. */
  lemma LegalSnoc(occ: Occupancy, raw: seq<Delta<string>>, d: Delta<string>)
    requires Legal(occ, raw) && LegalStep(After(occ, raw)(d.row), d)
    ensures Legal(occ, raw + [d]) && SameOccupancy(After(occ, raw + [d]), After(After(occ, raw), [d]))
  {
    forall s: nat
      ensures LegalOnSlot(occ(s), OnSlot(raw + [d], s)) && After(occ, raw + [d])(s) == After(After(occ, raw), [d])(s)
    {
      LegalSnocOnSlot(occ(s), raw, d, s);
    }
  }

  ghost function AfterAll(occ: Occupancy, windows: seq<seq<Delta<string>>>): Occupancy
    decreases |windows|
  {
    if windows == [] then occ else AfterAll(After(occ, windows[0]), windows[1..])
  }

  lemma {:induction false} LegalWindowsSnoc(occ: Occupancy, windows: seq<seq<Delta<string>>>, raw: seq<Delta<string>>)
    requires LegalWindows(occ, windows) && Legal(AfterAll(occ, windows), raw) && Single(AfterAll(occ, windows), raw)
    ensures LegalWindows(occ, windows + [raw])
    ensures AfterAll(occ, windows + [raw]) == After(AfterAll(occ, windows), raw)
    decreases |windows|
  {
    var all := windows + [raw];
    if windows == [] {
      assert all[0] == raw && all[1..] == [];
    } else {
      assert all[0] == windows[0] && all[1..] == windows[1..] + [raw];
      LegalWindowsSnoc(After(occ, windows[0]), windows[1..], raw);
    }
  }

  // ---- the evaluator ----

  class RowSubscription {
    const feed: Feed
    var active: set<nat>

    /** The active set is seeded from every slot whose row is selected, dead or alive. */
    constructor (feed: Feed, types: seq<ColumnType>, rows: seq<Row>)
      requires Fits(feed.predicate_, types) && forall r :: 0 <= r < |rows| ==> RowTyped(types, rows[r])
      ensures this.feed == feed && active == Seed(feed, types, rows)
    {
      this.feed, active := feed, {};
      new;
      for r := 0 to |rows|
        invariant this.feed == feed && active == Seed(feed, types, rows[..r])
      {
        if Selects(feed, types, rows[r]) { active := active + {r}; }
      }
      assert rows[..|rows|] == rows;
    }

    ghost predicate InStep(topic: Topic)
      reads this, topic, topic.index
    {
      && topic.Valid() && Fits(feed.predicate_, topic.types)
      && Tracks(feed, topic.types, topic.rows, topic.keyToRow, active)
    }

    method Evaluate(row: nat, upsert: bool, key: string, types: seq<ColumnType>, rows: seq<Row>)
      returns (d: Option<Delta<string>>)
      requires row < |rows| && RowTyped(types, rows[row]) && Fits(feed.predicate_, types)
      modifies this
      ensures d == DeltaOf(feed, types, old(active), rows[row], key, row, upsert)
      ensures active == ActiveAfter(feed, types, old(active), rows[row], row, upsert)
    {
      var matches := upsert && Selects(feed, types, rows[row]);
      var wasActive := row in active;
      d := None;
      if matches && !wasActive {
        active := active + {row};
        d := Some(Delta(DeltaType.Add, row, key, feed.show(rows[row])));
      } else if matches && wasActive {
        d := Some(Delta(DeltaType.Update, row, key, feed.show(rows[row])));
      } else if !matches && wasActive {
        active := active - {row};
        d := Some(if upsert then Delta(Oof, row, key, feed.show(rows[row])) else Delta(DeltaType.Remove, row, key, ""));
      }
    }
  }

  ghost function Seed(f: Feed, types: seq<ColumnType>, rows: seq<Row>): set<nat>
    requires Fits(f.predicate_, types) && forall r :: 0 <= r < |rows| ==> RowTyped(types, rows[r])
  {
    set r: nat | r < |rows| && Selects(f, types, rows[r])
  }

  /** Seeding takes in a dead slot exactly if one is free and the filter accepts a row of nulls. */
  lemma SeedExact(f: Feed, types: seq<ColumnType>, rows: seq<Row>, keyToRow: map<string, nat>, free: seq<nat>)
    requires Fits(f.predicate_, types) && Table(types, rows, keyToRow)
    requires Slots(types, rows, keyToRow, free) && NoLeak(rows, keyToRow, free)
    ensures Tracks(f, types, rows, keyToRow, Seed(f, types, rows))
    ensures NoGhost(keyToRow, Seed(f, types, rows)) <==> free == [] || !Selects(f, types, NullRow(types))
  {
    var seed := Seed(f, types, rows);
    if free != [] && Selects(f, types, NullRow(types)) {
      assert free[0] in seed;
    } else {
      assert forall s :: s in seed ==> s !in free;
    }
  }

  // ---- a topic with a row subscription on it ----

  ghost predicate Suits(topic: Topic, f: Feed)
    reads topic, topic.index
  {
    topic.Valid() && Fits(f.predicate_, topic.types)
  }

  ghost function VisibleIn(f: Feed, types: seq<ColumnType>, t: Contents): Conflation.View<string>
    requires Fits(f.predicate_, types) && Orderly(types, t)
  {
    Visible(f, types, t.rows, t.keyToRow)
  }

  ghost function OccupantIn(f: Feed, types: seq<ColumnType>, t: Contents): Occupancy
    requires Fits(f.predicate_, types) && Orderly(types, t)
  {
    OccupantOf(f, types, t.rows, t.keyToRow)
  }

  ghost function Occupants(topic: Topic, f: Feed): Occupancy
    requires Suits(topic, f)
    reads topic, topic.index
  {
    OccupantOf(f, topic.types, topic.rows, topic.keyToRow)
  }

  /** The deltas fit the slots, and take one occupancy to the other. */
  ghost predicate Fitting(occ: Occupancy, occ': Occupancy, ds: seq<Delta<string>>) {
    |ds| <= 1 && (ds != [] ==> LegalStep(occ(ds[0].row), ds[0])) && SameOccupancy(After(occ, ds), occ')
  }

  /** What a subscription and its subscriber go through in one operation. */
  ghost predicate Follows(f: Feed, types: seq<ColumnType>, t: Contents, active: set<nat>,
                          t': Contents, active': set<nat>, d: Option<Delta<string>>)
    requires Fits(f.predicate_, types) && Orderly(types, t) && Orderly(types, t')
  {
    && Tracks(f, types, t'.rows, t'.keyToRow, active')
    && VisibleIn(f, types, t') == React(VisibleIn(f, types, t), d)
    && (NoGhost(t.keyToRow, active) ==>
          NoGhost(t'.keyToRow, active') && Fitting(OccupantIn(f, types, t), OccupantIn(f, types, t'), Sent(d)))
  }

  lemma MutationFollows(f: Feed, types: seq<ColumnType>, t: Contents, t': Contents, active: set<nat>,
                        key: string, slot: nat, upsert: bool)
    requires Fits(f.predicate_, types) && Orderly(types, t) && Orderly(types, t')
    requires Mutation(types, t.rows, t.keyToRow, t'.rows, t'.keyToRow, key, slot, upsert)
    requires Tracks(f, types, t.rows, t.keyToRow, active)
    ensures Follows(f, types, t, active, t', ActiveAfter(f, types, active, t'.rows[slot], slot, upsert),
                    DeltaOf(f, types, active, t'.rows[slot], key, slot, upsert))
  {
    MutationReacts(f, types, t.rows, t.keyToRow, t'.rows, t'.keyToRow, active, key, slot, upsert);
    TracksAfter(f, types, t.rows, t.keyToRow, t'.rows, t'.keyToRow, active, key, slot, upsert);
    if NoGhost(t.keyToRow, active) {
      NoGhostAfter(f, types, t.rows, t.keyToRow, t'.rows, t'.keyToRow, active, key, slot, upsert);
      MutationIsLegal(f, types, t.rows, t.keyToRow, t'.rows, t'.keyToRow, active, key, slot, upsert);
    }
  }

  lemma NothingFollows(f: Feed, types: seq<ColumnType>, t: Contents, active: set<nat>)
    requires Fits(f.predicate_, types) && Orderly(types, t) && Tracks(f, types, t.rows, t.keyToRow, active)
    ensures Follows(f, types, t, active, t, active, None)
  {
    var occ := OccupantIn(f, types, t);
    OneDelta(occ, occ, 0, []);
  }

  function KeyOf(rules: Rules, op: TopicOp): string
    requires Keyed(rules, op)
  {
    match op
    case PublishOp(values) => rules.computeKey(values).value
    case DeleteOp(key) => key
  }

  /** An operation mutates the row it touches. */
  lemma TouchIsMutation(rules: Rules, t: Contents, op: TopicOp)
    requires Orderly(rules.types, t) && Keyed(rules, op) && Touched(rules, t, op).Some?
    ensures var t' := Performed(rules, t, op);
            Mutation(rules.types, t.rows, t.keyToRow, t'.rows, t'.keyToRow, KeyOf(rules, op),
                     Touched(rules, t, op).value, op.PublishOp?)
  {
    RecordsAfter(rules, t, op);
    OneRowTouched(rules, t, op);
  }

  /** What the evaluation of an operation leaves in the active set, and what it sends. */
  ghost predicate Evaluated(f: Feed, rules: Rules, t: Contents, active: set<nat>, op: TopicOp,
                            active': set<nat>, d: Option<Delta<string>>)
    requires Fits(f.predicate_, rules.types) && Orderly(rules.types, t) && Keyed(rules, op)
  {
    var t' := Performed(rules, t, op);
    match Touched(rules, t, op)
    case None => active' == active && d == None
    case Some(slot) =>
      && slot < |t'.rows|
      && active' == ActiveAfter(f, rules.types, active, t'.rows[slot], slot, op.PublishOp?)
      && d == DeltaOf(f, rules.types, active, t'.rows[slot], KeyOf(rules, op), slot, op.PublishOp?)
  }

  lemma EvaluatedFollows(f: Feed, rules: Rules, t: Contents, active: set<nat>, op: TopicOp,
                         active': set<nat>, d: Option<Delta<string>>)
    requires Fits(f.predicate_, rules.types) && Orderly(rules.types, t) && Keyed(rules, op)
    requires Tracks(f, rules.types, t.rows, t.keyToRow, active) && Evaluated(f, rules, t, active, op, active', d)
    ensures Orderly(rules.types, Performed(rules, t, op))
            && Follows(f, rules.types, t, active, Performed(rules, t, op), active', d)
  {
    RecordsAfter(rules, t, op);
    match Touched(rules, t, op)
    case None =>
      OneRowTouched(rules, t, op);
      NothingFollows(f, rules.types, t, active);
    case Some(slot) =>
      TouchIsMutation(rules, t, op);
      MutationFollows(f, rules.types, t, Performed(rules, t, op), active, KeyOf(rules, op), slot, op.PublishOp?);
  }

  /** One operation reaches the subscription as a mutation of the row it touched. */
  method FollowOp(topic: Topic, sub: RowSubscription, op: TopicOp) returns (d: Option<Delta<string>>)
    requires sub.InStep(topic) && Proper(topic.Rules(), op)
    modifies topic, topic.index, sub
    ensures sub.InStep(topic) && topic.State() == Performed(topic.Rules(), old(topic.State()), op)
    ensures Follows(sub.feed, topic.types, old(topic.State()), old(sub.active), topic.State(), sub.active, d)
  {
    ghost var t, active := topic.State(), sub.active;
    var row := ApplyOp(topic, op);
    d := None;
    if row.Some? { d := sub.Evaluate(row.value, op.PublishOp?, KeyOf(topic.Rules(), op), topic.types, topic.rows); }
    EvaluatedFollows(sub.feed, topic.Rules(), t, active, op, sub.active, d);
  }

  /** A legal window takes one occupancy to the other, no record ever on two slots. */
  ghost predicate Leads(occ0: Occupancy, raw: seq<Delta<string>>, occ: Occupancy) {
    Legal(occ0, raw) && Single(occ0, raw) && SameOccupancy(After(occ0, raw), occ)
  }

  lemma LeadsNowhere(occ: Occupancy)
    requires OneSlotEach(occ)
    ensures Leads(occ, [], occ)
  {
    OneDelta(occ, occ, 0, []);
    var none: seq<Delta<string>> := [];
    assert forall s: nat :: OnSlot(none, s) == [];
    assert none[..0] == none;
  }

  lemma OneSlotSame(a: Occupancy, b: Occupancy)
    requires SameOccupancy(a, b) && OneSlotEach(b)
    ensures OneSlotEach(a)
  {
  }

  lemma SingleSnoc(occ: Occupancy, raw: seq<Delta<string>>, d: Delta<string>)
    requires Single(occ, raw) && OneSlotEach(After(occ, raw + [d]))
    ensures Single(occ, raw + [d])
  {
    var more := raw + [d];
    forall i | 0 <= i <= |more| ensures OneSlotEach(After(occ, more[..i])) {
      if i <= |raw| { assert more[..i] == raw[..i]; } else { assert more[..i] == more; }
    }
  }

  lemma FittingSnoc(occ0: Occupancy, raw: seq<Delta<string>>, occ: Occupancy, occ': Occupancy, ds: seq<Delta<string>>)
    requires Leads(occ0, raw, occ) && Fitting(occ, occ', ds) && OneSlotEach(occ')
    ensures Leads(occ0, raw + ds, occ')
  {
    if ds == [] {
      assert raw + ds == raw;
      OneDelta(occ, After(occ, ds), 0, ds);
    } else {
      assert ds == [ds[0]];
      LegalSnoc(occ0, raw, ds[0]);
      assert forall s: nat :: After(After(occ0, raw), ds)(s) == After(occ, ds)(s);
      OneSlotSame(After(occ0, raw + ds), occ');
      SingleSnoc(occ0, raw, ds[0]);
    }
  }

  lemma ReactIsApply(v: Conflation.View<string>, raw: seq<Delta<string>>, d: Option<Delta<string>>)
    ensures ApplyAll(v, raw + Sent(d)) == React(ApplyAll(v, raw), d)
  {
    ApplyAllAppend(v, raw, Sent(d));
    if d.Some? { assert Sent(d)[..0] == []; }
  }

  /** What a subscription and its subscriber go through between two flushes. */
  ghost predicate FollowsAll(f: Feed, types: seq<ColumnType>, t: Contents, active: set<nat>,
                             t': Contents, active': set<nat>, raw: seq<Delta<string>>)
    requires Fits(f.predicate_, types) && Orderly(types, t) && Orderly(types, t')
  {
    && VisibleIn(f, types, t') == ApplyAll(VisibleIn(f, types, t), raw)
    && (NoGhost(t.keyToRow, active) ==>
          NoGhost(t'.keyToRow, active') && Leads(OccupantIn(f, types, t), raw, OccupantIn(f, types, t')))
  }

  lemma FollowsNothing(f: Feed, types: seq<ColumnType>, t: Contents, active: set<nat>)
    requires Fits(f.predicate_, types) && Orderly(types, t)
    ensures FollowsAll(f, types, t, active, t, active, [])
  {
    OnceEach(f, types, t.rows, t.keyToRow);
    LeadsNowhere(OccupantIn(f, types, t));
  }

  lemma FollowsSnoc(f: Feed, types: seq<ColumnType>, t: Contents, active: set<nat>, t': Contents, active': set<nat>,
                    t'': Contents, active'': set<nat>, raw: seq<Delta<string>>, d: Option<Delta<string>>)
    requires Fits(f.predicate_, types) && Orderly(types, t) && Orderly(types, t') && Orderly(types, t'')
    requires FollowsAll(f, types, t, active, t', active', raw) && Follows(f, types, t', active', t'', active'', d)
    ensures FollowsAll(f, types, t, active, t'', active'', raw + Sent(d))
  {
    ReactIsApply(VisibleIn(f, types, t), raw, d);
    if NoGhost(t.keyToRow, active) {
      OnceEach(f, types, t''.rows, t''.keyToRow);
      FittingSnoc(OccupantIn(f, types, t), raw, OccupantIn(f, types, t'), OccupantIn(f, types, t''), Sent(d));
    }
  }

  /** The operations between two flushes. */
  method FollowWindow(topic: Topic, sub: RowSubscription, ops: seq<TopicOp>) returns (raw: seq<Delta<string>>)
    requires sub.InStep(topic) && AllProper(topic.Rules(), ops)
    modifies topic, topic.index, sub
    ensures sub.InStep(topic) && topic.State() == ContentsFrom(topic.Rules(), old(topic.State()), ops)
    ensures FollowsAll(sub.feed, topic.types, old(topic.State()), old(sub.active), topic.State(), sub.active, raw)
    decreases |ops|
  {
    if ops == [] {
      raw := [];
      FollowsNothing(sub.feed, topic.types, topic.State(), sub.active);
    } else {
      raw := FollowWindow(topic, sub, ops[..|ops| - 1]);
      ghost var t, active := topic.State(), sub.active;
      var d := FollowOp(topic, sub, ops[|ops| - 1]);
      FollowsSnoc(sub.feed, topic.types, old(topic.State()), old(sub.active), t, active, topic.State(), sub.active,
                  raw, d);
      raw := raw + Sent(d);
    }
  }

  lemma LeadsSame(a: Occupancy, b: Occupancy, raw: seq<Delta<string>>, occ: Occupancy)
    requires SameOccupancy(a, b) && Leads(a, raw, occ)
    ensures Leads(b, raw, occ)
  {
    forall i | 0 <= i <= |raw| ensures OneSlotEach(After(b, raw[..i])) {
      OneSlotSame(After(b, raw[..i]), After(a, raw[..i]));
    }
  }

  lemma WindowSnoc(occ0: Occupancy, raws: seq<seq<Delta<string>>>, occ: Occupancy, occ': Occupancy,
                   raw: seq<Delta<string>>)
    requires LegalWindows(occ0, raws) && SameOccupancy(AfterAll(occ0, raws), occ) && Leads(occ, raw, occ')
    ensures LegalWindows(occ0, raws + [raw]) && SameOccupancy(AfterAll(occ0, raws + [raw]), occ')
  {
    LeadsSame(occ, AfterAll(occ0, raws), raw, occ');
    LegalWindowsSnoc(occ0, raws, raw);
  }

  lemma ConcatSnoc<T>(windows: seq<seq<T>>, w: seq<T>)
    ensures Conflation.Concat(windows + [w]) == Conflation.Concat(windows) + w
  {
    assert (windows + [w])[..|windows|] == windows;
  }

  /** What they go through over several windows. */
  ghost predicate FollowsWindows(f: Feed, types: seq<ColumnType>, t: Contents, active: set<nat>,
                                 t': Contents, active': set<nat>, raws: seq<seq<Delta<string>>>)
    requires Fits(f.predicate_, types) && Orderly(types, t) && Orderly(types, t')
  {
    && VisibleIn(f, types, t') == ApplyAll(VisibleIn(f, types, t), Conflation.Concat(raws))
    && (NoGhost(t.keyToRow, active) ==>
          && NoGhost(t'.keyToRow, active') && LegalWindows(OccupantIn(f, types, t), raws)
          && SameOccupancy(AfterAll(OccupantIn(f, types, t), raws), OccupantIn(f, types, t')))
  }

  lemma FollowsWindow(f: Feed, types: seq<ColumnType>, t: Contents, active: set<nat>, t': Contents, active': set<nat>,
                      t'': Contents, active'': set<nat>, raws: seq<seq<Delta<string>>>, raw: seq<Delta<string>>)
    requires Fits(f.predicate_, types) && Orderly(types, t) && Orderly(types, t') && Orderly(types, t'')
    requires FollowsWindows(f, types, t, active, t', active', raws)
             && FollowsAll(f, types, t', active', t'', active'', raw)
    ensures FollowsWindows(f, types, t, active, t'', active'', raws + [raw])
  {
    ConcatSnoc(raws, raw);
    ApplyAllAppend(VisibleIn(f, types, t), Conflation.Concat(raws), raw);
    if NoGhost(t.keyToRow, active) {
      WindowSnoc(OccupantIn(f, types, t), raws, OccupantIn(f, types, t'), OccupantIn(f, types, t''), raw);
    }
  }

  ghost predicate WindowsProper(rules: Rules, windows: seq<seq<TopicOp>>) {
    forall i :: 0 <= i < |windows| ==> AllProper(rules, windows[i])
  }

  method FollowWindows(topic: Topic, sub: RowSubscription, windows: seq<seq<TopicOp>>)
    returns (raws: seq<seq<Delta<string>>>)
    requires sub.InStep(topic) && WindowsProper(topic.Rules(), windows)
    modifies topic, topic.index, sub
    ensures sub.InStep(topic)
            && topic.State() == ContentsFrom(topic.Rules(), old(topic.State()), Conflation.Concat(windows))
    ensures FollowsWindows(sub.feed, topic.types, old(topic.State()), old(sub.active), topic.State(), sub.active, raws)
    decreases |windows|
  {
    raws := [];
    if windows != [] {
      var front, last := windows[..|windows| - 1], windows[|windows| - 1];
      raws := FollowWindows(topic, sub, front);
      ghost var t, active := topic.State(), sub.active;
      var raw := FollowWindow(topic, sub, last);
      ContentsAppend(topic.Rules(), old(topic.State()), Conflation.Concat(front), last);
      FollowsWindow(sub.feed, topic.types, old(topic.State()), old(sub.active), t, active, topic.State(), sub.active,
                    raws, raw);
      raws := raws + [raw];
    }
  }

  lemma {:induction false} ConcatProper(rules: Rules, windows: seq<seq<TopicOp>>)
    requires WindowsProper(rules, windows)
    ensures AllKeyed(rules, Conflation.Concat(windows))
  {
    if windows != [] { ConcatProper(rules, windows[..|windows| - 1]); }
  }

  /** The selected records of a state of the world. */
  ghost function Selected(f: Feed, types: seq<ColumnType>, sow: map<string, Row>): Conflation.View<string>
    requires Fits(f.predicate_, types) && forall k :: k in sow ==> RowTyped(types, sow[k])
  {
    map k | k in sow && Selects(f, types, sow[k]) :: f.show(sow[k])
  }

  lemma VisibleIsSelected(f: Feed, types: seq<ColumnType>, rows: seq<Row>, keyToRow: map<string, nat>)
    requires Fits(f.predicate_, types) && Table(types, rows, keyToRow)
    ensures Visible(f, types, rows, keyToRow) == Selected(f, types, SowOf(rows, keyToRow))
  {
  }

  /** Whether a subscription taken now starts without dead slots in its active set. */
  predicate SeedsClean(f: Feed, types: seq<ColumnType>, free: seq<nat>)
    requires Fits(f.predicate_, types)
  {
    free == [] || !Selects(f, types, NullRow(types))
  }

  /**
   Subscribe, then publish and delete at will, flushing the conflator after every
   window.  The raw deltas take the snapshot to the selected records the operations
   leave; so do the flushed ones, if the active set was seeded clean and conflation
   preserves every window.
   */
  method RunRows(topic: Topic, feed: Feed, windows: seq<seq<TopicOp>>)
    returns (snapshot: Conflation.View<string>, raws: seq<seq<Delta<string>>>, v: Conflation.View<string>)
    requires Suits(topic, feed) && NoLeak(topic.rows, topic.keyToRow, topic.freeSlots)
    requires WindowsProper(topic.Rules(), windows)
    modifies topic, topic.index
    ensures Suits(topic, feed)
    ensures topic.Records() == SowAfter(topic.Rules(), old(topic.Records()), Conflation.Concat(windows))
    ensures snapshot == Selected(feed, topic.types, old(topic.Records()))
    ensures ApplyAll(snapshot, Conflation.Concat(raws)) == Selected(feed, topic.types, topic.Records())
    ensures old(SeedsClean(feed, topic.types, topic.freeSlots)) && CalmWindows(old(Occupants(topic, feed)), raws) ==>
              v == Selected(feed, topic.types, topic.Records())
  {
    ghost var occ0 := Occupants(topic, feed);
    SeedExact(feed, topic.types, topic.rows, topic.keyToRow, topic.freeSlots);
    VisibleIsSelected(feed, topic.types, topic.rows, topic.keyToRow);
    OccupancyAgrees(feed, topic.types, topic.rows, topic.keyToRow);
    snapshot := Visible(feed, topic.types, topic.rows, topic.keyToRow);
    var sub := new RowSubscription(feed, topic.types, topic.rows);
    ConcatProper(topic.Rules(), windows);
    KeyedRunIsMap(topic.Rules(), topic.State(), Conflation.Concat(windows));
    raws := FollowWindows(topic, sub, windows);
    VisibleIsSelected(feed, topic.types, topic.rows, topic.keyToRow);
    v := Relay(snapshot, raws, occ0);
  }

  // ---- the predicate index as a filter on mutations ----

  /** The row a partial publish merges into: the record's own, or one of nulls. */
  ghost function MergedInto(types: seq<ColumnType>, rows: seq<Row>, keys: map<string, nat>, key: string): Row
    requires Table(types, rows, keys)
  {
    if key in keys then rows[keys[key]] else NullRow(types)
  }

  /** Only the supplied columns differ from the row merged into. */
  ghost predicate Supplied(types: seq<ColumnType>, before: Row, after: Row, changed: seq<nat>)
    requires RowTyped(types, before) && RowTyped(types, after)
  {
    forall c: nat :: c < |types| && c !in changed ==> before[c] == after[c]
  }

  /**
   A partial publish is not shown to a subscription whose filter reads none of the
   supplied columns.  That is right exactly if the record is outside the
   subscription, or was in it already and looks the same there.
   */
  lemma SkippingExact(f: Feed, types: seq<ColumnType>, rows: seq<Row>, keys: map<string, nat>, rows': seq<Row>,
                      keys': map<string, nat>,
                      key: string, slot: nat, changed: seq<nat>)
    requires Fits(f.predicate_, types) && Published(types, rows, keys, rows', keys', key, slot)
    requires Supplied(types, MergedInto(types, rows, keys, key), rows'[slot], changed)
    requires !PredicateIndexes.Concerns(map["sub" := f.predicate_], Some(changed), "sub")
    ensures Visible(f, types, rows', keys') == Visible(f, types, rows, keys) <==>
            !Selects(f, types, MergedInto(types, rows, keys, key))
              || (key in keys && f.show(rows[slot]) == f.show(rows'[slot]))
  {
    var before := MergedInto(types, rows, keys, key);
    PredicateIndexes.NoFalseNegatives(f.lib, map["sub" := f.predicate_], changed, "sub", types, before, rows'[slot]);
    var v, v' := Visible(f, types, rows, keys), Visible(f, types, rows', keys');
    forall k ensures k != key ==> Lookup(v', k) == Lookup(v, k) {
      VisibleEntry(f, types, rows, keys, k);
      VisibleEntry(f, types, rows', keys', k);
      if k != key { OtherRecords(types, rows, keys, rows', keys', key, slot, k); }
    }
    assert Lookup(v, key) == Entry(f, types, rows, keys, key);
    assert Lookup(v', key) == Entry(f, types, rows', keys', key);
    if Lookup(v, key) == Lookup(v', key) { SameLookups(v, v'); }
  }

  // ---- what goes wrong outside these conditions ----

  /** A record put into a slot that was seeded dead is announced as an update of something never added. */
  lemma NewRecordArrivesAsUpdate(f: Feed, types: seq<ColumnType>, row: Row, key: string)
    requires Fits(f.predicate_, types) && RowTyped(types, row) && Selects(f, types, NullRow(types))
             && Selects(f, types, row)
    ensures var dead := [NullRow(types)];
            var update := Delta(DeltaType.Update, 0, key, f.show(row));
            && Visible(f, types, dead, map[]) == map[]
            && DeltaOf(f, types, Seed(f, types, dead), row, key, 0, true) == Some(update)
            && !LegalStep(OccupantOf(f, types, dead, map[])(0), update)
  {
    var dead := [NullRow(types)];
    assert 0 in Seed(f, types, dead);
    OccupantIs(f, types, dead, map[], 0, key);
  }

  /** An update of a column the filter does not read never reaches a subscriber who is shown it. */
  lemma DataUpdateIsSkipped(lib: Library)
    ensures var types, keys := [IntType, IntType], map["k" := 0];
            var show := (row: Row) => if row == [Int(1), Int(2)] then "new" else "old";
            var f := Feed(lib, IsNotNull(0), show);
            && !PredicateIndexes.Concerns(map["sub" := f.predicate_], Some([1]), "sub")
            && Visible(f, types, [[Int(1), Int(1)]], keys) == map["k" := "old"]
            && Visible(f, types, [[Int(1), Int(2)]], keys) == map["k" := "new"]
  {
  }
}
