/**
 A topic's state: the store, the key-to-row map, the list of freed slots and the
 secondary index, all changed together by publishes and deletes.

 Seen from outside, a topic is a map from record key to row (`Sow`, the state of
 the world); slots, their reuse and the index are how it is kept.
 */
module Topics {
  import opened Wrappers
  import opened Values
  import opened Predicates
  import opened SecIndex
  import opened Planner
  import opened Executor
  import opened Tombstones

  function NullRow(types: seq<ColumnType>): (row: Row)
    ensures RowTyped(types, row) && forall c :: 0 <= c < |types| ==> row[c].IsNull()
  {
    seq(|types|, c requires 0 <= c < |types| => NullOf(types[c]))
  }

  /** A published cell; columns beyond the published ones count as `Null`. */
  function CellOf(values: seq<Value>, c: nat): Value { if c < |values| then values[c] else Null }

  /** Each published cell is `Null` or of its column's type, as the JSON reader produces them. */
  ghost predicate WellTyped(types: seq<ColumnType>, values: seq<Value>) {
    forall c :: 0 <= c < |types| ==> CellOf(values, c).Null? || CellOf(values, c).HasType(types[c])
  }

  /** Library conversions used when a value does not have its column's type. */
  datatype Conversions = Conversions(
    ofInt: int -> Float64.F64,
    format: Value -> string,
    parseTimestamp: string -> I64,
    parseBool: string -> Option<bool>)

  /** What storing `v` into a cell of type `ty` that held `old` leaves there. */
  function Stored(conv: Conversions, ty: ColumnType, old_: Value, v: Value): (r: Value)
    requires old_.HasType(ty)
    ensures r.HasType(ty)
    ensures v.HasType(ty) ==> r == v
  {
    if v.HasType(ty) then v
    else if v.Null? then NullOf(ty)
    else match ty
      case DoubleType =>
        if v.Long? then Double(conv.ofInt(v.n)) else if v.Int? then Double(conv.ofInt(v.i)) else old_
      case LongType => if v.Int? then Long(v.i) else old_
      case IntType => old_
      case BytesType => old_
      case StringType =>
        String(if v.Double? || v.Long? || v.Int? || (v.Bool? && !v.IsNull()) || (v.Timestamp? && !v.IsNull())
               then Some(conv.format(v)) else None)
      case TimestampType =>
        Timestamp(if v.String? && !v.IsNull() then conv.parseTimestamp(v.s.value)
                  else if v.Long? && !v.IsNull() then v.n
                  else if v.Int? && !v.IsNull() then v.i
                  else NULL_TIMESTAMP)
      case BoolType =>
        Bool(if v.Long? && !v.IsNull() then Some(v.n != 0)
             else if v.Int? && !v.IsNull() then Some(v.i != 0)
             else if v.Double? && !v.IsNull() then Some(!Float64.Eq(v.d, Float64.PlusZero))
             else if v.String? && !v.IsNull() then conv.parseBool(v.s.value)
             else None)
  }

  /** `Null` leaves a column as it was. */
  function Written(conv: Conversions, types: seq<ColumnType>, row: Row, values: seq<Value>): (r: Row)
    requires RowTyped(types, row)
    ensures RowTyped(types, r)
  {
    seq(|types|, c requires 0 <= c < |types| =>
      if CellOf(values, c).Null? then row[c] else Stored(conv, types[c], row[c], CellOf(values, c)))
  }

  /** A value that leaves a cell of the type as it was: null, or of a type it cannot take. */
  predicate LeavesCell(ty: ColumnType, v: Value) {
    || v.Null?
    || match ty
       case DoubleType => !v.Double? && !v.Long? && !v.Int?
       case LongType => !v.Long? && !v.Int?
       case IntType => !v.Int?
       case BytesType => !v.Bytes?
       case _ => false
  }

  /** Of two records for one row, the second wherever it can be stored. */
  function Overlay(types: seq<ColumnType>, a: seq<Value>, b: seq<Value>): seq<Value> {
    seq(|types|, c requires 0 <= c < |types| => if LeavesCell(types[c], CellOf(b, c)) then CellOf(a, c)
        else CellOf(b, c))
  }

  /** Two writes of a row amount to one: in every column the last value that can be stored wins. */
  lemma WrittenTwice(conv: Conversions, types: seq<ColumnType>, row: Row, a: seq<Value>, b: seq<Value>)
    requires RowTyped(types, row)
    ensures Written(conv, types, Written(conv, types, row, a), b) == Written(conv, types, row, Overlay(types, a, b))
  {
    var once := Written(conv, types, row, a);
    var twice, overlaid := Written(conv, types, once, b), Written(conv, types, row, Overlay(types, a, b));
    forall c | 0 <= c < |types| ensures twice[c] == overlaid[c] {
      assert CellOf(Overlay(types, a, b), c) == if LeavesCell(types[c], CellOf(b, c)) then CellOf(a, c)
             else CellOf(b, c);
    }
  }

  /** Publishing a row over itself changes nothing, and publishing twice is publishing once. */
  lemma WrittenBack(conv: Conversions, types: seq<ColumnType>, row: Row, values: seq<Value>)
    requires RowTyped(types, row)
    ensures Written(conv, types, row, row) == row
    ensures Written(conv, types, Written(conv, types, row, values), values) == Written(conv, types, row, values)
  {
    WrittenTwice(conv, types, row, values, values);
    assert forall c :: 0 <= c < |types| ==> CellOf(Overlay(types, values, values), c) == CellOf(values, c);
  }

  /** The value an in-place update files in the index: the published one, not the stored one. */
  function Filed(row: Row, values: seq<Value>, c: nat): Value
    requires c < |row|
  {
    if CellOf(values, c).Null? then row[c] else CellOf(values, c)
  }

  /** In every indexed column, conversion to the column type does not change the index key. */
  ghost predicate KeysSurvive(conv: Conversions, types: seq<ColumnType>, cols: seq<nat>, row: Row, values: seq<Value>)
    requires RowTyped(types, row)
  {
    forall c :: c in cols && c < |types| ==>
      IxKeyOf(Filed(row, values, c)) == IxKeyOf(Written(conv, types, row, values)[c])
  }

  lemma WellTypedKeysSurvive(conv: Conversions, types: seq<ColumnType>, cols: seq<nat>, row: Row, values: seq<Value>)
    requires RowTyped(types, row) && WellTyped(types, values)
    ensures KeysSurvive(conv, types, cols, row, values)
  {
  }

  /** An integer published into an indexed 64-bit column is filed under a key no lookup asks for. */
  lemma NarrowIntegerIsLost(conv: Conversions, i: I32, row: Row)
    requires RowTyped([LongType], row) && i != NULL_INT
    ensures !KeysSurvive(conv, [LongType], [0], row, [Int(i)])
    ensures Written(conv, [LongType], row, [Int(i)]) == [Long(i)]
  {
    assert Filed(row, [Int(i)], 0) == Int(i);
    assert Written(conv, [LongType], row, [Int(i)])[0] == Long(i);
    assert 0 in [0];
  }

  /** The key under which row `r` is filed for column `c`. */
  function KeyAt(rows: seq<Row>, r: nat, c: nat): Option<IxKey> {
    if r < |rows| && c < |rows[r]| then IxKeyOf(rows[r][c]) else None
  }

  ghost predicate ColumnsFit(ix: Index, types: seq<ColumnType>) {
    forall i :: 0 <= i < |ix.indexedCols| ==> ix.indexedCols[i] < |types|
  }

  /** The index files each row under its cells, and nothing else. */
  ghost predicate Describes(ix: Index, types: seq<ColumnType>, rows: seq<Row>) {
    && Lockstep(ix)
    && ColumnsFit(ix, types)
    && forall c: nat, k, r: nat :: Covers(ix, c) ==> (Has(ix, c, k, r) <==> KeyAt(rows, r, c) == Some(k))
  }

  lemma DescribesIsInSync(ix: Index, store: Store)
    requires store.Valid() && Describes(ix, store.types, store.rows)
    ensures InSync(ix, store)
  {
    forall c: nat, k, r: nat | Covers(ix, c)
      ensures c < |store.types|
      ensures Has(ix, c, k, r) <==> r < |store.rows| && IxKeyOf(store.rows[r][c]) == Some(k)
    {
      assert Has(ix, c, k, r) <==> KeyAt(store.rows, r, c) == Some(k);
    }
  }

  // ---- slots ----

  /** No slot has two keys; a freed slot has none, is listed once and is nulled out. */
  ghost predicate Slots(types: seq<ColumnType>, rows: seq<Row>, keyToRow: map<string, nat>, free: seq<nat>) {
    && (forall k :: k in keyToRow ==> keyToRow[k] < |rows|)
    && (forall k, k' :: k in keyToRow && k' in keyToRow && keyToRow[k] == keyToRow[k'] ==> k == k')
    && (forall i :: 0 <= i < |free| ==> free[i] < |rows| && rows[free[i]] == NullRow(types))
    && (forall i, j :: 0 <= i < j < |free| ==> free[i] != free[j])
    && (forall k :: k in keyToRow ==> keyToRow[k] !in free)
  }

  /** Every slot is live or free: deletes and reuse lose none. */
  ghost predicate NoLeak(rows: seq<Row>, keyToRow: map<string, nat>, free: seq<nat>) {
    forall r: nat :: r < |rows| ==> r in free || Live(keyToRow, r)
  }

  ghost predicate Live(keyToRow: map<string, nat>, r: nat) { exists k :: k in keyToRow && keyToRow[k] == r }

  /** One slot was written or appended, the others are as they were. */
  ghost predicate OnlyRowChanged(before: seq<Row>, after: seq<Row>, row: nat) {
    && |before| <= |after| && row < |after|
    && forall r: nat :: r < |after| && r != row ==> r < |before| && after[r] == before[r]
  }

  ghost function SowOf(rows: seq<Row>, keyToRow: map<string, nat>): map<string, Row>
    requires forall k :: k in keyToRow ==> keyToRow[k] < |rows|
  {
    map k | k in keyToRow :: rows[keyToRow[k]]
  }

  lemma UpdateLiveSlot(types: seq<ColumnType>, rows: seq<Row>, keyToRow: map<string, nat>, free: seq<nat>,
                       key: string, x: Row)
    requires Slots(types, rows, keyToRow, free) && key in keyToRow
    ensures var rows' := rows[keyToRow[key] := x];
            Slots(types, rows', keyToRow, free) && SowOf(rows', keyToRow) == SowOf(rows, keyToRow)[key := x]
  {
    assert forall i :: 0 <= i < |free| ==> free[i] in free;
  }

  lemma RefillKeepsSlots(types: seq<ColumnType>, rows: seq<Row>, keyToRow: map<string, nat>, free: seq<nat>,
                         key: string, x: Row)
    requires Slots(types, rows, keyToRow, free) && key !in keyToRow && free != []
    ensures var slot := free[|free| - 1];
            Slots(types, rows[slot := x], keyToRow[key := slot], free[..|free| - 1])
  {
    var slot, free' := free[|free| - 1], free[..|free| - 1];
    assert forall i :: 0 <= i < |free'| ==> free'[i] == free[i];
    assert forall k :: k in keyToRow ==> keyToRow[k] != slot;
  }

  lemma RefillLosesNone(rows: seq<Row>, keyToRow: map<string, nat>, free: seq<nat>, key: string, r: nat)
    requires key !in keyToRow && free != [] && (r in free || Live(keyToRow, r))
    ensures r in free[..|free| - 1] || Live(keyToRow[key := free[|free| - 1]], r)
  {
    var slot, free' := free[|free| - 1], free[..|free| - 1];
    var keyToRow' := keyToRow[key := slot];
    assert free == free' + [slot] && keyToRow'[key] == slot;
    if Live(keyToRow, r) {
      var k :| k in keyToRow && keyToRow[k] == r;
      assert keyToRow'[k] == r;
    }
  }

  lemma RefillFreeSlot(types: seq<ColumnType>, rows: seq<Row>, keyToRow: map<string, nat>, free: seq<nat>,
                       key: string, x: Row)
    requires Slots(types, rows, keyToRow, free) && key !in keyToRow && free != []
    ensures var slot := free[|free| - 1];
            var rows', keyToRow', free' := rows[slot := x], keyToRow[key := slot], free[..|free| - 1];
            && Slots(types, rows', keyToRow', free') && SowOf(rows', keyToRow') == SowOf(rows, keyToRow)[key := x]
            && (NoLeak(rows, keyToRow, free) ==> NoLeak(rows', keyToRow', free'))
  {
    RefillKeepsSlots(types, rows, keyToRow, free, key, x);
    if NoLeak(rows, keyToRow, free) {
      var keyToRow', free' := keyToRow[key := free[|free| - 1]], free[..|free| - 1];
      forall r: nat | r < |rows| ensures r in free' || Live(keyToRow', r) {
        RefillLosesNone(rows, keyToRow, free, key, r);
      }
    }
    RefillSow(types, rows, keyToRow, free, key, x);
  }

  lemma RefillSow(types: seq<ColumnType>, rows: seq<Row>, keyToRow: map<string, nat>, free: seq<nat>, key: string,
                  x: Row)
    requires Slots(types, rows, keyToRow, free) && key !in keyToRow && free != []
    ensures var slot := free[|free| - 1];
            SowOf(rows[slot := x], keyToRow[key := slot]) == SowOf(rows, keyToRow)[key := x]
  {
    assert free[|free| - 1] in free;
  }

  lemma AppendNewSlot(types: seq<ColumnType>, rows: seq<Row>, keyToRow: map<string, nat>, key: string, x: Row)
    requires Slots(types, rows, keyToRow, []) && key !in keyToRow
    ensures var rows', keyToRow' := rows + [x], keyToRow[key := |rows|];
            && Slots(types, rows', keyToRow', []) && SowOf(rows', keyToRow') == SowOf(rows, keyToRow)[key := x]
            && (NoLeak(rows, keyToRow, []) ==> NoLeak(rows', keyToRow', []))
  {
    var keyToRow' := keyToRow[key := |rows|];
    forall r: nat | r == |rows| || Live(keyToRow, r) ensures Live(keyToRow', r) {
      if r == |rows| { assert keyToRow'[key] == r; }
      else {
        var k :| k in keyToRow && keyToRow[k] == r;
        assert keyToRow'[k] == r;
      }
    }
  }

  /** Writing slot 0 without a key keeps the slots in order unless it fills a freed slot. */
  lemma KeylessUpdate(types: seq<ColumnType>, rows: seq<Row>, keyToRow: map<string, nat>, free: seq<nat>, x: Row)
    requires Slots(types, rows, keyToRow, free) && |rows| > 0
    ensures Slots(types, rows[0 := x], keyToRow, free) <==> (0 in free ==> x == NullRow(types))
  {
    if 0 in free {
      var i :| 0 <= i < |free| && free[i] == 0;
    }
  }

  /** A record without a key, published after the record on slot 0 was deleted, fills a slot that is still free. */
  lemma KeylessFillsFreedSlot(conv: Conversions)
    ensures var types := [LongType];
            && Slots(types, [NullRow(types)], map[], [0])
            && Written(conv, types, NullRow(types), [Long(7)]) == [Long(7)]
            && !Slots(types, [[Long(7)]], map[], [0])
  {
    var types := [LongType];
    KeylessUpdate(types, [NullRow(types)], map[], [0], [Long(7)]);
    assert [NullRow(types)][0 := [Long(7)]] == [[Long(7)]] && 0 in [0];
    assert NullRow(types)[0] == NullOf(LongType);
  }

  lemma FreeKeepsSlots(types: seq<ColumnType>, rows: seq<Row>, keyToRow: map<string, nat>, free: seq<nat>, key: string)
    requires Slots(types, rows, keyToRow, free) && key in keyToRow
    ensures var slot := keyToRow[key];
            Slots(types, rows[slot := NullRow(types)], keyToRow - {key}, free + [slot])
  {
    assert forall i :: 0 <= i < |free| ==> free[i] in free;
  }

  lemma FreeLosesNone(keyToRow: map<string, nat>, free: seq<nat>, key: string, r: nat)
    requires key in keyToRow && (r in free || Live(keyToRow, r))
    ensures r in free + [keyToRow[key]] || Live(keyToRow - {key}, r)
  {
    if r !in free && r != keyToRow[key] {
      var k :| k in keyToRow && keyToRow[k] == r;
      assert k in keyToRow - {key};
    }
  }

  lemma FreeSow(types: seq<ColumnType>, rows: seq<Row>, keyToRow: map<string, nat>, free: seq<nat>, key: string)
    requires Slots(types, rows, keyToRow, free) && key in keyToRow
    ensures SowOf(rows[keyToRow[key] := NullRow(types)], keyToRow - {key}) == SowOf(rows, keyToRow) - {key}
  {
  }

  lemma FreeLiveSlot(types: seq<ColumnType>, rows: seq<Row>, keyToRow: map<string, nat>, free: seq<nat>, key: string)
    requires Slots(types, rows, keyToRow, free) && key in keyToRow
    ensures var slot := keyToRow[key];
            var rows', keyToRow', free' := rows[slot := NullRow(types)], keyToRow - {key}, free + [slot];
            && Slots(types, rows', keyToRow', free') && SowOf(rows', keyToRow') == SowOf(rows, keyToRow) - {key}
            && (NoLeak(rows, keyToRow, free) ==> NoLeak(rows', keyToRow', free'))
  {
    FreeKeepsSlots(types, rows, keyToRow, free, key);
    FreeSow(types, rows, keyToRow, free, key);
    if NoLeak(rows, keyToRow, free) {
      var keyToRow', free' := keyToRow - {key}, free + [keyToRow[key]];
      forall r: nat | r < |rows| ensures r in free' || Live(keyToRow', r) { FreeLosesNone(keyToRow, free, key, r); }
    }
  }

  // ---- live rows ----

  ghost function LiveRows(keyToRow: map<string, nat>): set<nat> { set k | k in keyToRow :: keyToRow[k] }

  lemma LiveAfterUpsert(keyToRow: map<string, nat>, key: string, row: nat)
    requires key in keyToRow ==> keyToRow[key] == row
    ensures LiveRows(keyToRow[key := row]) == LiveRows(keyToRow) + {row}
  {
    var after := keyToRow[key := row];
    forall r ensures r in LiveRows(after) <==> r in LiveRows(keyToRow) || r == row {
      if r == row { assert after[key] == r; }
      if r in LiveRows(keyToRow) {
        var k :| k in keyToRow && keyToRow[k] == r;
        assert after[k] == r;
      }
    }
  }

  lemma LiveAfterDelete(types: seq<ColumnType>, rows: seq<Row>, keyToRow: map<string, nat>, free: seq<nat>, key: string)
    requires Slots(types, rows, keyToRow, free) && key in keyToRow
    ensures LiveRows(keyToRow - {key}) == LiveRows(keyToRow) - {keyToRow[key]}
  {
    forall r ensures r in LiveRows(keyToRow - {key}) <==> r in LiveRows(keyToRow) && r != keyToRow[key] {
      if r in LiveRows(keyToRow) && r != keyToRow[key] {
        var k :| k in keyToRow && keyToRow[k] == r;
        assert k in keyToRow - {key};
      }
    }
  }

  // ---- what an operation does to rows, keys and free slots ----

  /** The key has the slot now, and had no other before. */
  ghost predicate UpsertedKey(before: map<string, nat>, after: map<string, nat>, key: string, slot: nat) {
    after == before[key := slot] && (key in before ==> before[key] == slot)
  }

  datatype Contents = Contents(rows: seq<Row>, keyToRow: map<string, nat>, free: seq<nat>)

  ghost predicate InRange(types: seq<ColumnType>, t: Contents) {
    && (forall r :: 0 <= r < |t.rows| ==> RowTyped(types, t.rows[r]))
    && (forall k :: k in t.keyToRow ==> t.keyToRow[k] < |t.rows|)
    && (forall i :: 0 <= i < |t.free| ==> t.free[i] < |t.rows|)
  }

  /** Refilling a slot writes `Null` too; cells beyond the record stay. */
  function Refilled(conv: Conversions, types: seq<ColumnType>, row: Row, values: seq<Value>): (r: Row)
    requires RowTyped(types, row)
    ensures RowTyped(types, r)
    ensures row == NullRow(types) ==> r == Written(conv, types, row, values)
  {
    seq(|types|, c requires 0 <= c < |types| =>
      if c >= |values| then row[c]
      else if values[c].Null? then NullOf(types[c]) else Stored(conv, types[c], row[c], values[c]))
  }

  /** A known key is updated in place; a new key takes the last freed slot, else a new one. */
  function PutKeyed(conv: Conversions, types: seq<ColumnType>, t: Contents, key: string,
                    values: seq<Value>): (t': Contents)
    requires InRange(types, t)
    ensures InRange(types, t') && key in t'.keyToRow
  {
    if key in t.keyToRow then
      t.(rows := t.rows[t.keyToRow[key] := Written(conv, types, t.rows[t.keyToRow[key]], values)])
    else if t.free != [] then
      var slot := t.free[|t.free| - 1];
      Contents(t.rows[slot := Refilled(conv, types, t.rows[slot], values)], t.keyToRow[key := slot],
               t.free[..|t.free| - 1])
    else
      Contents(t.rows + [Written(conv, types, NullRow(types), values)], t.keyToRow[key := |t.rows|], t.free)
  }

  /** A record without a key goes to slot 0. */
  function PutUnkeyed(conv: Conversions, types: seq<ColumnType>, t: Contents, values: seq<Value>): (t': Contents)
    requires InRange(types, t)
    ensures InRange(types, t')
  {
    t.(rows := if |t.rows| > 0 then t.rows[0 := Written(conv, types, t.rows[0], values)]
               else [Written(conv, types, NullRow(types), values)])
  }

  function Dropped(types: seq<ColumnType>, t: Contents, key: string): (t': Contents)
    requires InRange(types, t)
    ensures InRange(types, t')
  {
    if key !in t.keyToRow then t
    else Contents(t.rows[t.keyToRow[key] := NullRow(types)], t.keyToRow - {key}, t.free + [t.keyToRow[key]])
  }

  ghost predicate Orderly(types: seq<ColumnType>, t: Contents) {
    InRange(types, t) && Slots(types, t.rows, t.keyToRow, t.free)
  }

  /** What a publish does to the state of the world, given its key. */
  ghost function Upserted(conv: Conversions, types: seq<ColumnType>, sow: map<string, Row>, key: string,
                          values: seq<Value>): map<string, Row>
    requires forall k :: k in sow ==> RowTyped(types, sow[k])
  {
    sow[key := Written(conv, types, if key in sow then sow[key] else NullRow(types), values)]
  }

  /** Whatever the types of its values, a keyed publish upserts its record and nothing else, and loses no slot. */
  lemma PutUpserts(conv: Conversions, types: seq<ColumnType>, t: Contents, key: string, values: seq<Value>)
    requires Orderly(types, t)
    ensures var t' := PutKeyed(conv, types, t, key, values);
            && Orderly(types, t')
            && SowOf(t'.rows, t'.keyToRow) == Upserted(conv, types, SowOf(t.rows, t.keyToRow), key, values)
            && (NoLeak(t.rows, t.keyToRow, t.free) ==> NoLeak(t'.rows, t'.keyToRow, t'.free))
  {
    if key in t.keyToRow {
      UpdateLiveSlot(types, t.rows, t.keyToRow, t.free, key, Written(conv, types, t.rows[t.keyToRow[key]], values));
    } else if t.free != [] {
      RefillFreeSlot(types, t.rows, t.keyToRow, t.free, key, Written(conv, types, NullRow(types), values));
    } else {
      AppendNewSlot(types, t.rows, t.keyToRow, key, Written(conv, types, NullRow(types), values));
    }
  }

  /** It writes the one slot its key then has. */
  lemma PutTouchesOne(conv: Conversions, types: seq<ColumnType>, t: Contents, key: string, values: seq<Value>)
    requires InRange(types, t)
    ensures var t' := PutKeyed(conv, types, t, key, values);
            OnlyRowChanged(t.rows, t'.rows, t'.keyToRow[key])
              && UpsertedKey(t.keyToRow, t'.keyToRow, key, t'.keyToRow[key])
  {
    if key in t.keyToRow { assert t.keyToRow == t.keyToRow[key := t.keyToRow[key]]; }
  }

  lemma DropDeletes(types: seq<ColumnType>, t: Contents, key: string)
    requires Orderly(types, t)
    ensures var t' := Dropped(types, t, key);
            && Orderly(types, t') && SowOf(t'.rows, t'.keyToRow) == SowOf(t.rows, t.keyToRow) - {key}
            && t'.keyToRow == t.keyToRow - {key}
            && (NoLeak(t.rows, t.keyToRow, t.free) ==> NoLeak(t'.rows, t'.keyToRow, t'.free))
  {
    if key in t.keyToRow { FreeLiveSlot(types, t.rows, t.keyToRow, t.free, key); }
  }

  /** The index files every row under its cells, but not yet `row`. */
  ghost predicate Awaits(ix: Index, rows: seq<Row>, row: nat) {
    forall c: nat, k, r: nat :: Covers(ix, c) ==> (Has(ix, c, k, r) <==> r != row && KeyAt(rows, r, c) == Some(k))
  }

  /** Partway through filing a row, or through taking it out: `done` are the columns dealt with. */
  ghost predicate Partway(ix: Index, rows: seq<Row>, row: nat, done: seq<nat>, filing: bool) {
    forall c: nat, k, r: nat :: Covers(ix, c) ==>
      (Has(ix, c, k, r) <==> KeyAt(rows, r, c) == Some(k) && (r != row || (c in done) == filing))
  }

  lemma FilingStep(ix: Index, ix': Index, rows: seq<Row>, row: nat, done: seq<nat>, col: nat)
    requires row < |rows| && col < |rows[row]| && ix'.indexedCols == ix.indexedCols
    requires Partway(ix, rows, row, done, true) && Gains(ix, ix', col, rows[row][col], row)
    ensures Partway(ix', rows, row, done + [col], true)
  {
    forall c: nat, k, r: nat | Covers(ix', c)
      ensures Has(ix', c, k, r) <==> KeyAt(rows, r, c) == Some(k) && (r != row || c in done + [col])
    {
      assert Covers(ix, c);
      assert Has(ix, c, k, r) <==> KeyAt(rows, r, c) == Some(k) && (r != row || c in done);
    }
  }

  lemma UnfilingStep(ix: Index, ix': Index, rows: seq<Row>, row: nat, done: seq<nat>, col: nat)
    requires row < |rows| && col < |rows[row]| && ix'.indexedCols == ix.indexedCols
    requires Partway(ix, rows, row, done, false) && Loses(ix, ix', col, rows[row][col], row)
    ensures Partway(ix', rows, row, done + [col], false)
  {
    forall c: nat, k, r: nat | Covers(ix', c)
      ensures Has(ix', c, k, r) <==> KeyAt(rows, r, c) == Some(k) && (r != row || c !in done + [col])
    {
      assert Covers(ix, c);
      assert Has(ix, c, k, r) <==> KeyAt(rows, r, c) == Some(k) && (r != row || c !in done);
    }
  }

  /** The index files every row under its cells, but `row` under the values it is to take on. */
  ghost predicate FilesAs(ix: Index, types: seq<ColumnType>, rows: seq<Row>, row: nat, values: seq<Value>)
    requires row < |rows| && RowTyped(types, rows[row])
  {
    forall c: nat, k, r: nat :: Covers(ix, c) && c < |types| ==>
      (Has(ix, c, k, r) <==>
       if r == row then IxKeyOf(Filed(rows[row], values, c)) == Some(k) else KeyAt(rows, r, c) == Some(k))
  }

  /** Partway through refiling: the columns in `done` are filed under the new values, the others under the cells. */
  ghost predicate Refiling(ix: Index, types: seq<ColumnType>, rows: seq<Row>, row: nat, values: seq<Value>,
                           done: seq<nat>)
    requires row < |rows| && RowTyped(types, rows[row])
  {
    forall c: nat, k, r: nat :: Covers(ix, c) && c < |types| ==>
      (Has(ix, c, k, r) <==>
       if r == row && c in done then IxKeyOf(Filed(rows[row], values, c)) == Some(k) else KeyAt(rows, r, c) == Some(k))
  }

  /** The entry of one value of a row is taken out, and that of another put in. */
  ghost predicate Swaps(ix: Index, ix': Index, col: nat, before: Value, value: Value, row: nat) {
    forall c: nat, k, r: nat :: Has(ix', c, k, r) <==>
      || (Has(ix, c, k, r) && !(c == col && r == row && IxKeyOf(before) == Some(k)))
      || (Covers(ix, c) && c == col && r == row && IxKeyOf(value) == Some(k))
  }

  /** One column refiled: the entry of its cell is taken out and that of the new value put in. */
  lemma RefilingStep(ix: Index, ix': Index, types: seq<ColumnType>, rows: seq<Row>, row: nat, values: seq<Value>,
                     done: seq<nat>, col: nat)
    requires row < |rows| && RowTyped(types, rows[row]) && col < |types| && ix'.indexedCols == ix.indexedCols
    requires Refiling(ix, types, rows, row, values, done)
    requires Swaps(ix, ix', col, rows[row][col], Filed(rows[row], values, col), row)
    ensures Refiling(ix', types, rows, row, values, done + [col])
  {
    forall c: nat, k, r: nat | Covers(ix', c) && c < |types|
      ensures Has(ix', c, k, r) <==>
              if r == row && c in done + [col] then IxKeyOf(Filed(rows[row], values, c)) == Some(k)
              else KeyAt(rows, r, c) == Some(k)
    {
      assert Covers(ix, c);
      assert Has(ix, c, k, r) <==>
             if r == row && c in done then IxKeyOf(Filed(rows[row], values, c)) == Some(k)
             else KeyAt(rows, r, c) == Some(k);
    }
  }

  /** Nulling a row that is out of the index leaves the index right. */
  lemma NulledIsDescribed(ix: Index, types: seq<ColumnType>, rows: seq<Row>, row: nat)
    requires row < |rows| && Lockstep(ix) && ColumnsFit(ix, types) && Awaits(ix, rows, row)
    ensures Describes(ix, types, rows[row := NullRow(types)])
  {
    var after := rows[row := NullRow(types)];
    assert forall c: nat, r: nat :: r != row ==> KeyAt(after, r, c) == KeyAt(rows, r, c);
  }

  /** A null row has no entries, so a row put in its place awaits its own. */
  lemma NullAwaits(ix: Index, types: seq<ColumnType>, rows: seq<Row>, row: nat, x: Row)
    requires row < |rows| && Describes(ix, types, rows) && rows[row] == NullRow(types)
    ensures Awaits(ix, rows[row := x], row)
  {
    assert forall c: nat, r: nat :: r != row ==> KeyAt(rows[row := x], r, c) == KeyAt(rows, r, c);
  }

  lemma AppendedAwaits(ix: Index, types: seq<ColumnType>, rows: seq<Row>, x: Row)
    requires Describes(ix, types, rows)
    ensures Awaits(ix, rows + [x], |rows|)
  {
    assert forall c: nat, r: nat :: r != |rows| ==> KeyAt(rows + [x], r, c) == KeyAt(rows, r, c);
  }

  lemma UpdatedIndex(conv: Conversions, types: seq<ColumnType>, ix: Index, before: seq<Row>, row: nat,
                     values: seq<Value>)
    requires row < |before| && RowTyped(types, before[row])
    requires Lockstep(ix) && ColumnsFit(ix, types) && FilesAs(ix, types, before, row, values)
    ensures Describes(ix, types, before[row := Written(conv, types, before[row], values)]) <==>
        KeysSurvive(conv, types, ix.indexedCols, before[row], values)
  {
    var after := before[row := Written(conv, types, before[row], values)];
    forall c: nat | Covers(ix, c) && c < |types|
      ensures (forall k, r: nat :: Has(ix, c, k, r) <==> KeyAt(after, r, c) == Some(k)) <==>
              IxKeyOf(Filed(before[row], values, c)) == IxKeyOf(after[row][c])
    {
      var filed, stored := IxKeyOf(Filed(before[row], values, c)), IxKeyOf(after[row][c]);
      assert KeyAt(after, row, c) == stored;
      assert forall r: nat :: r != row ==> KeyAt(after, r, c) == KeyAt(before, r, c);
      if filed != stored {
        var k := if filed.Some? then filed.value else stored.value;
        assert Has(ix, c, k, row) <==> filed == Some(k);
      }
    }
  }

  /** The schema of a topic, the conversions of its store, and how a record is keyed. */
  datatype Rules = TopicRules(types: seq<ColumnType>, conv: Conversions, computeKey: seq<Value> -> Option<string>)

  class Topic {
    const types: seq<ColumnType>
    const conv: Conversions
    const computeKey: seq<Value> -> Option<string>
    const index: SecondaryIndex
    var rows: seq<Row>
    var keyToRow: map<string, nat>
    var freeSlots: seq<nat>

    function Rules(): Rules { TopicRules(types, conv, computeKey) }

    /** The state of the world. */
    ghost function Records(): map<string, Row>
      requires InRange(types, State())
      reads this
    {
      Sow(Rules(), State())
    }

    ghost function State(): Contents
      reads this
    {
      Contents(rows, keyToRow, freeSlots)
    }

    /** What holds whatever was published. */
    ghost predicate Sound()
      reads this, index
    {
      InRange(types, State()) && index.Valid() && ColumnsFit(index.View(), types)
    }

    ghost predicate Valid()
      reads this, index
    {
      Orderly(types, State()) && Describes(index.View(), types, rows)
    }

    constructor (types: seq<ColumnType>, conv: Conversions, computeKey: seq<Value> -> Option<string>, indexed: seq<nat>)
      requires forall i :: 0 <= i < |indexed| ==> indexed[i] < |types|
      ensures Valid() && fresh(index) && State() == Contents([], map[], [])
      ensures this.types == types && this.conv == conv && this.computeKey == computeKey
      ensures index.indexedCols == indexed
    {
      this.types, this.conv, this.computeKey := types, conv, computeKey;
      rows, keyToRow, freeSlots := [], map[], [];
      index := new SecondaryIndex(indexed);
    }

    /** File a row whose cells are not in the index yet. */
    method IndexNewRow(row: nat)
      requires Sound() && row < |rows|
      modifies index
      ensures Sound() && index.indexedCols == old(index.indexedCols)
      ensures old(Awaits(index.View(), rows, row)) ==> Describes(index.View(), types, rows)
    {
      var cols := index.indexedCols;
      ghost var awaits := Awaits(index.View(), rows, row);
      for i := 0 to |cols|
        invariant index.Valid() && index.indexedCols == cols
        invariant awaits ==> Partway(index.View(), rows, row, cols[..i], true)
      {
        assert RowTyped(types, rows[row]);
        ghost var ix := index.View();
        index.Add(cols[i], rows[row][cols[i]], row);
        assert cols[..i + 1] == cols[..i] + [cols[i]];
        if awaits { FilingStep(ix, index.View(), rows, row, cols[..i], cols[i]); }
      }
      assert cols[..|cols|] == cols;
    }

    /** Remove every entry of a row from the index. */
    method UnindexRow(row: nat)
      requires Sound() && row < |rows|
      modifies index
      ensures Sound() && index.indexedCols == old(index.indexedCols)
      ensures old(Describes(index.View(), types, rows)) ==> Awaits(index.View(), rows, row)
    {
      var cols := index.indexedCols;
      ghost var described := Describes(index.View(), types, rows);
      for i := 0 to |cols|
        invariant index.Valid() && index.indexedCols == cols
        invariant described ==> Partway(index.View(), rows, row, cols[..i], false)
      {
        assert RowTyped(types, rows[row]);
        ghost var ix := index.View();
        index.Remove(cols[i], rows[row][cols[i]], row);
        assert cols[..i + 1] == cols[..i] + [cols[i]];
        if described { UnfilingStep(ix, index.View(), rows, row, cols[..i], cols[i]); }
      }
      assert cols[..|cols|] == cols;
    }

    /** Take one entry out of the index and put another in. */
    method Refile(col: nat, before: Value, value: Value, row: nat)
      requires index.Valid()
      modifies index
      ensures index.Valid() && index.indexedCols == old(index.indexedCols)
      ensures Swaps(old(index.View()), index.View(), col, before, value, row)
    {
      index.Remove(col, before, row);
      index.Add(col, value, row);
    }

    /** Refile a row that is about to take on `values`; `Null` keeps the old cell. */
    method ReindexRow(row: nat, values: seq<Value>)
      requires Sound() && row < |rows|
      modifies index
      ensures Sound() && index.indexedCols == old(index.indexedCols)
      ensures old(Describes(index.View(), types, rows)) ==> FilesAs(index.View(), types, rows, row, values)
    {
      var cols := index.indexedCols;
      assert RowTyped(types, rows[row]);
      ghost var described := Describes(index.View(), types, rows);
      for i := 0 to |cols|
        invariant index.Valid() && index.indexedCols == cols
        invariant described ==> Refiling(index.View(), types, rows, row, values, cols[..i])
      {
        var c := cols[i];
        var before := rows[row][c];
        ghost var ix := index.View();
        Refile(c, before, if CellOf(values, c).Null? then before else CellOf(values, c), row);
        assert cols[..i + 1] == cols[..i] + [c];
        if described { RefilingStep(ix, index.View(), types, rows, row, values, cols[..i], c); }
      }
      assert cols[..|cols|] == cols;
    }

    /** Update a row in place: the index stays right exactly when conversion keeps the keys. */
    method UpdateSlot(row: nat, values: seq<Value>)
      requires Sound() && row < |rows|
      modifies this`rows, index
      ensures Sound() && rows == old(rows)[row := Written(conv, types, old(rows)[row], values)]
      ensures index.indexedCols == old(index.indexedCols)
      ensures old(Describes(index.View(), types, rows)) ==>
          (Describes(index.View(), types, rows) <==>
           KeysSurvive(conv, types, index.indexedCols, old(rows)[row], values))
    {
      assert RowTyped(types, rows[row]);
      ghost var before, described := rows, Describes(index.View(), types, rows);
      ReindexRow(row, values);
      rows := rows[row := Written(conv, types, rows[row], values)];
      if described { UpdatedIndex(conv, types, index.View(), before, row, values); }
    }

    /** Fill a freed slot, then index what the store now holds. */
    method RefillSlot(row: nat, values: seq<Value>)
      requires Sound() && row < |rows|
      modifies this`rows, index
      ensures Sound() && rows == old(rows)[row := Refilled(conv, types, old(rows)[row], values)]
      ensures index.indexedCols == old(index.indexedCols)
      ensures old(Describes(index.View(), types, rows)) && old(rows)[row] == NullRow(types) ==>
                Describes(index.View(), types, rows)
    {
      assert RowTyped(types, rows[row]);
      if Describes(index.View(), types, rows) && rows[row] == NullRow(types) {
        NullAwaits(index.View(), types, rows, row, Refilled(conv, types, rows[row], values));
      }
      rows := rows[row := Refilled(conv, types, rows[row], values)];
      IndexNewRow(row);
    }

    method AppendSlot(values: seq<Value>)
      requires Sound()
      modifies this`rows, index
      ensures Sound() && rows == old(rows) + [Written(conv, types, NullRow(types), values)]
      ensures index.indexedCols == old(index.indexedCols)
      ensures old(Describes(index.View(), types, rows)) ==> Describes(index.View(), types, rows)
    {
      if Describes(index.View(), types, rows) {
        AppendedAwaits(index.View(), types, rows, Written(conv, types, NullRow(types), values));
      }
      rows := rows + [Written(conv, types, NullRow(types), values)];
      IndexNewRow(|rows| - 1);
    }

    /** The existing slot a publish updates in place, if any. */
    ghost function Target(values: seq<Value>): Option<nat>
      reads this
    {
      match computeKey(values)
      case Some(key) => if key in keyToRow then Some(keyToRow[key]) else None
      case None => if |rows| > 0 then Some(0) else None
    }

    /**
     When a publish keeps the topic valid: an in-place update must keep the keys,
     and a record without a key must not land on a freed slot and fill it.
     */
    ghost predicate SafeToPublish(values: seq<Value>)
      reads this, index
      requires Sound()
    {
      var target := Target(values);
      target.Some? ==>
        && KeysSurvive(conv, types, index.indexedCols, rows[target.value], values)
        && (target.value in freeSlots ==> Written(conv, types, rows[target.value], values) == NullRow(types))
    }

    /** A new key takes the last freed slot. */
    method ReuseSlot(key: string, values: seq<Value>) returns (row: nat)
      requires Sound() && key !in keyToRow && freeSlots != []
      modifies this, index
      ensures Sound() && index.indexedCols == old(index.indexedCols)
      ensures State() == PutKeyed(conv, types, old(State()), key, values) && row == keyToRow[key]
      ensures old(Valid()) ==> Describes(index.View(), types, rows)
    {
      row := freeSlots[|freeSlots| - 1];
      assert Orderly(types, State()) ==> rows[row] == NullRow(types);
      ghost var before := State();
      RefillSlot(row, values);
      keyToRow, freeSlots := keyToRow[key := row], freeSlots[..|freeSlots| - 1];
      assert State() == PutKeyed(conv, types, before, key, values);
    }

    /** A new key takes the last freed slot, else a new one. */
    method InsertKey(key: string, values: seq<Value>) returns (row: nat)
      requires Sound() && key !in keyToRow
      modifies this, index
      ensures Sound() && index.indexedCols == old(index.indexedCols)
      ensures State() == PutKeyed(conv, types, old(State()), key, values) && row == keyToRow[key]
      ensures old(Valid()) ==> Describes(index.View(), types, rows)
    {
      if freeSlots != [] {
        row := ReuseSlot(key, values);
      } else {
        row := |rows|;
        AppendSlot(values);
        keyToRow := keyToRow[key := row];
      }
    }

    /** A keyed record, whatever its values. */
    method PublishKeyed(key: string, values: seq<Value>) returns (row: nat)
      requires Sound()
      modifies this, index
      ensures Sound() && index.indexedCols == old(index.indexedCols)
      ensures State() == PutKeyed(conv, types, old(State()), key, values) && row == keyToRow[key]
      ensures old(Valid()) ==>
          (Describes(index.View(), types, rows) <==>
           (key in old(keyToRow) ==> KeysSurvive(conv, types, index.indexedCols, old(rows)[row], values)))
    {
      if key in keyToRow {
        row := keyToRow[key];
        UpdateSlot(row, values);
      } else {
        row := InsertKey(key, values);
      }
    }

    /** A record without a key goes to slot 0. */
    method PublishUnkeyed(values: seq<Value>)
      requires Sound()
      modifies this`rows, index
      ensures Sound() && index.indexedCols == old(index.indexedCols)
      ensures State() == PutUnkeyed(conv, types, old(State()), values)
      ensures old(Valid()) ==>
          (Valid() <==>
           (|old(rows)| > 0 ==>
              && KeysSurvive(conv, types, index.indexedCols, old(rows)[0], values)
              && (0 in freeSlots ==> rows[0] == NullRow(types))))
    {
      ghost var before, valid := rows, Valid();
      if |rows| > 0 {
        UpdateSlot(0, values);
        if valid { KeylessUpdate(types, before, keyToRow, freeSlots, rows[0]); }
      } else {
        AppendSlot(values);
      }
    }

    /**
     Publish one record: the contents change as they should whatever its values and
     key; a valid topic stays valid exactly if the publish is safe.
     */
    method Publish(values: seq<Value>) returns (row: nat)
      requires Sound()
      modifies this, index
      ensures Sound() && index.indexedCols == old(index.indexedCols) && row < |rows|
      ensures State() == Published(Rules(), old(State()), values)
      ensures computeKey(values).Some? ==> row == keyToRow[computeKey(values).value]
      ensures old(Valid()) ==> (Valid() <==> old(SafeToPublish(values)))
    {
      var key := computeKey(values);
      if key.None? {
        row := 0;
        PublishUnkeyed(values);
      } else {
        ghost var before, valid := State(), Valid();
        row := PublishKeyed(key.value, values);
        if valid {
          PutUpserts(conv, types, before, key.value, values);
          assert key.value in before.keyToRow ==> before.keyToRow[key.value] !in before.free;
        }
      }
    }

    /** Take a row out of the index, then null it. */
    method ClearSlot(row: nat)
      requires Sound() && row < |rows|
      modifies this`rows, index
      ensures Sound() && rows == old(rows)[row := NullRow(types)] && index.indexedCols == old(index.indexedCols)
      ensures old(Describes(index.View(), types, rows)) ==> Describes(index.View(), types, rows)
    {
      ghost var described := Describes(index.View(), types, rows);
      UnindexRow(row);
      if described { NulledIsDescribed(index.View(), types, rows, row); }
      rows := rows[row := NullRow(types)];
    }

    /** Delete a key: unindex and null its slot, and free it. */
    method Delete(key: string) returns (found: bool)
      requires Sound()
      modifies this, index
      ensures Sound() && index.indexedCols == old(index.indexedCols)
      ensures found <==> key in old(keyToRow)
      ensures State() == Dropped(types, old(State()), key)
      ensures old(Valid()) ==> Valid()
    {
      found := key in keyToRow;
      if found {
        ghost var before, valid := State(), Valid();
        var row := keyToRow[key];
        ClearSlot(row);
        keyToRow, freeSlots := keyToRow - {key}, freeSlots + [row];
        assert State() == Dropped(types, before, key);
        if valid { DropDeletes(types, before, key); }
      }
    }

    /**
     The page of the rows the index offers, less the deleted ones on it; it is that
     of a full scan if no matching row is lost to a zero.
     */
    method Query(lib: Library, q: Query) returns (res: QueryResult)
      requires Valid() && QueryFits(q, types)
      ensures res.sourceRows == LiveOf(OfferedPage(lib, q, Store(types, rows), Some(index.View())), LiveRows(keyToRow))
      ensures ZeroSafe(lib, q.predicate_, index.View(), Store(types, rows)) ==>
                res.sourceRows == LiveOf(Page(lib, q, Store(types, rows)), LiveRows(keyToRow))
      ensures res.totalMatches == |res.rows| == |res.sourceRows|
      ensures forall i :: 0 <= i < |res.rows| ==> res.rows[i] == Projected(q, types, rows)(res.sourceRows[i])
    {
      DescribesIsInSync(index.View(), Store(types, rows));
      var live := set k | k in keyToRow :: keyToRow[k];
      res := QueryLive(lib, q, Store(types, rows), Some(Index(index.indexedCols, index.byCol, index.rangeByCol)), live);
    }
  }

  // ---- runs ----

  function Published(rules: Rules, t: Contents, values: seq<Value>): (t': Contents)
    requires InRange(rules.types, t)
    ensures InRange(rules.types, t')
  {
    match rules.computeKey(values)
    case Some(key) => PutKeyed(rules.conv, rules.types, t, key, values)
    case None => PutUnkeyed(rules.conv, rules.types, t, values)
  }

  datatype TopicOp = PublishOp(values: seq<Value>) | DeleteOp(key: string)

  function Performed(rules: Rules, t: Contents, op: TopicOp): (t': Contents)
    requires InRange(rules.types, t)
    ensures InRange(rules.types, t')
  {
    match op
    case PublishOp(values) => Published(rules, t, values)
    case DeleteOp(key) => Dropped(rules.types, t, key)
  }

  ghost function ContentsFrom(rules: Rules, t: Contents, ops: seq<TopicOp>): (t': Contents)
    requires InRange(rules.types, t)
    ensures InRange(rules.types, t')
  {
    if ops == [] then t else Performed(rules, ContentsFrom(rules, t, ops[..|ops| - 1]), ops[|ops| - 1])
  }

  lemma {:induction false} ContentsAppend(rules: Rules, t: Contents, a: seq<TopicOp>, b: seq<TopicOp>)
    requires InRange(rules.types, t)
    ensures ContentsFrom(rules, t, a + b) == ContentsFrom(rules, ContentsFrom(rules, t, a), b)
  {
    if b == [] {
      assert a + b == a;
    } else {
      ContentsAppend(rules, t, a, b[..|b| - 1]);
      assert (a + b)[..|a + b| - 1] == a + b[..|b| - 1];
    }
  }

  const Nothing: Contents := Contents([], map[], [])

  // ---- the state of the world ----

  ghost predicate SowTyped(rules: Rules, sow: map<string, Row>) {
    forall k :: k in sow ==> RowTyped(rules.types, sow[k])
  }

  /** What an operation does to the state of the world, without slots or index. */
  ghost function SowStep(rules: Rules, sow: map<string, Row>, op: TopicOp): (after: map<string, Row>)
    requires SowTyped(rules, sow)
    ensures SowTyped(rules, after)
  {
    match op
    case DeleteOp(key) => sow - {key}
    case PublishOp(values) =>
      if rules.computeKey(values).None? then sow
      else Upserted(rules.conv, rules.types, sow, rules.computeKey(values).value, values)
  }

  ghost function SowAfter(rules: Rules, sow: map<string, Row>, ops: seq<TopicOp>): (after: map<string, Row>)
    requires SowTyped(rules, sow)
    ensures SowTyped(rules, after)
  {
    if ops == [] then sow else SowStep(rules, SowAfter(rules, sow, ops[..|ops| - 1]), ops[|ops| - 1])
  }

  /** The records of the contents. */
  ghost function Sow(rules: Rules, t: Contents): (sow: map<string, Row>)
    requires InRange(rules.types, t)
    ensures SowTyped(rules, sow)
  {
    SowOf(t.rows, t.keyToRow)
  }

  ghost predicate AllAccounted(t: Contents) { NoLeak(t.rows, t.keyToRow, t.free) }

  ghost predicate Keyed(rules: Rules, op: TopicOp) { op.PublishOp? ==> rules.computeKey(op.values).Some? }

  ghost predicate AllKeyed(rules: Rules, ops: seq<TopicOp>) { forall i :: 0 <= i < |ops| ==> Keyed(rules, ops[i]) }

  function Slot(keyToRow: map<string, nat>, key: string): Option<nat> {
    if key in keyToRow then Some(keyToRow[key]) else None
  }

  /** The slot an operation on a keyed record touches, if any. */
  function Touched(rules: Rules, t: Contents, op: TopicOp): Option<nat>
    requires InRange(rules.types, t) && (op.PublishOp? ==> rules.computeKey(op.values).Some?)
  {
    match op
    case PublishOp(values) => Some(Performed(rules, t, op).keyToRow[rules.computeKey(values).value])
    case DeleteOp(key) => Slot(t.keyToRow, key)
  }

  /** What a keyed operation does to the records and the slots. */
  lemma RecordsAfter(rules: Rules, t: Contents, op: TopicOp)
    requires Orderly(rules.types, t) && Keyed(rules, op)
    ensures var t' := Performed(rules, t, op);
            Orderly(rules.types, t') && (AllAccounted(t) ==> AllAccounted(t'))
              && Sow(rules, t') == SowStep(rules, Sow(rules, t), op)
  {
    if op.PublishOp? {
      PutUpserts(rules.conv, rules.types, t, rules.computeKey(op.values).value, op.values);
    } else {
      DropDeletes(rules.types, t, op.key);
    }
  }

  /** It touches one row, and adds that row to the live ones or takes it from them. */
  lemma OneRowTouched(rules: Rules, t: Contents, op: TopicOp)
    requires Orderly(rules.types, t) && Keyed(rules, op)
    ensures var t', row := Performed(rules, t, op), Touched(rules, t, op);
            && (row.None? ==> t' == t)
            && (op.PublishOp? ==> UpsertedKey(t.keyToRow, t'.keyToRow, rules.computeKey(op.values).value, row.value))
            && (op.DeleteOp? ==> t'.keyToRow == t.keyToRow - {op.key})
            && (row.Some? ==> OnlyRowChanged(t.rows, t'.rows, row.value)
                              && LiveRows(t'.keyToRow) == if op.PublishOp? then LiveRows(t.keyToRow) + {row.value}
                                                          else LiveRows(t.keyToRow) - {row.value})
  {
    if op.PublishOp? {
      var key := rules.computeKey(op.values).value;
      PutTouchesOne(rules.conv, rules.types, t, key, op.values);
      LiveAfterUpsert(t.keyToRow, key, Touched(rules, t, op).value);
    } else if op.key in t.keyToRow {
      LiveAfterDelete(rules.types, t.rows, t.keyToRow, t.free, op.key);
    } else {
      assert t.keyToRow - {op.key} == t.keyToRow;
    }
  }

  /** Keyed records, of whatever values: the contents hold the map the operations describe, every slot accounted for. */
  lemma {:induction false} KeyedRunIsMap(rules: Rules, t: Contents, ops: seq<TopicOp>)
    requires Orderly(rules.types, t) && AllKeyed(rules, ops)
    ensures var t' := ContentsFrom(rules, t, ops);
            && Orderly(rules.types, t') && (AllAccounted(t) ==> AllAccounted(t'))
            && Sow(rules, t') == SowAfter(rules, Sow(rules, t), ops)
  {
    if ops != [] {
      var front := ops[..|ops| - 1];
      KeyedRunIsMap(rules, t, front);
      RecordsAfter(rules, ContentsFrom(rules, t, front), ops[|ops| - 1]);
    }
  }

  // ---- operations that keep the index in sync ----

  /** Published values have their column types, and a key. */
  ghost predicate Proper(rules: Rules, op: TopicOp) {
    op.PublishOp? ==> WellTyped(rules.types, op.values) && Keyed(rules, op)
  }

  ghost predicate AllProper(rules: Rules, ops: seq<TopicOp>) { forall i :: 0 <= i < |ops| ==> Proper(rules, ops[i]) }

  /** An operation that keeps a valid topic valid. */
  ghost predicate Safe(rules: Rules, indexed: seq<nat>, t: Contents, op: TopicOp)
    requires InRange(rules.types, t)
  {
    op.PublishOp? ==>
      match rules.computeKey(op.values)
      case Some(key) => key in t.keyToRow ==>
        KeysSurvive(rules.conv, rules.types, indexed, t.rows[t.keyToRow[key]], op.values)
      case None =>
        |t.rows| > 0 ==>
          && KeysSurvive(rules.conv, rules.types, indexed, t.rows[0], op.values)
          && (0 in t.free ==> Written(rules.conv, rules.types, t.rows[0], op.values) == NullRow(rules.types))
  }

  /** Every operation was safe when it came. */
  ghost predicate AllSafe(rules: Rules, indexed: seq<nat>, t: Contents, ops: seq<TopicOp>)
    requires InRange(rules.types, t)
  {
    ops == [] ||
    (&& AllSafe(rules, indexed, t, ops[..|ops| - 1])
     && Safe(rules, indexed, ContentsFrom(rules, t, ops[..|ops| - 1]), ops[|ops| - 1]))
  }

  /** Values of the column types, as the JSON reader produces them, are always safe. */
  lemma TypedIsSafe(rules: Rules, indexed: seq<nat>, t: Contents, op: TopicOp)
    requires InRange(rules.types, t) && Proper(rules, op)
    ensures Safe(rules, indexed, t, op)
  {
    if op.PublishOp? {
      var key := rules.computeKey(op.values).value;
      if key in t.keyToRow {
        WellTypedKeysSurvive(rules.conv, rules.types, indexed, t.rows[t.keyToRow[key]], op.values);
      }
    }
  }

  method ApplyAny(topic: Topic, op: TopicOp)
    requires topic.Sound()
    modifies topic, topic.index
    ensures topic.Sound() && topic.index.indexedCols == old(topic.index.indexedCols)
    ensures topic.State() == Performed(topic.Rules(), old(topic.State()), op)
    ensures old(topic.Valid()) && old(Safe(topic.Rules(), topic.index.indexedCols, topic.State(), op)) ==> topic.Valid()
  {
    if op.PublishOp? {
      var row := topic.Publish(op.values);
    } else {
      var found := topic.Delete(op.key);
    }
  }

  /** One operation with values of the column types, and the row it touched. */
  method ApplyOp(topic: Topic, op: TopicOp) returns (row: Option<nat>)
    requires topic.Valid() && Proper(topic.Rules(), op)
    modifies topic, topic.index
    ensures topic.Valid() && topic.index.indexedCols == old(topic.index.indexedCols)
    ensures topic.State() == Performed(topic.Rules(), old(topic.State()), op)
    ensures row == Touched(topic.Rules(), old(topic.State()), op)
  {
    TypedIsSafe(topic.Rules(), topic.index.indexedCols, topic.State(), op);
    row := Slot(topic.keyToRow, if op.DeleteOp? then op.key else "");
    ApplyAny(topic, op);
    if op.PublishOp? { row := Slot(topic.keyToRow, topic.computeKey(op.values).value); }
  }

  /**
   Any run of publishes and deletes from an empty topic, values and keys being what
   they may: rows, keys and free slots are those the operations describe, and the
   index is in sync if every operation was safe when it came.
   */
  method RunTopic(rules: Rules, indexed: seq<nat>, ops: seq<TopicOp>) returns (topic: Topic)
    requires forall i :: 0 <= i < |indexed| ==> indexed[i] < |rules.types|
    ensures fresh(topic) && fresh(topic.index) && topic.Sound() && topic.Rules() == rules
            && topic.index.indexedCols == indexed
    ensures topic.State() == ContentsFrom(rules, Nothing, ops)
    ensures AllKeyed(rules, ops) ==>
              AllAccounted(topic.State()) && Sow(rules, topic.State()) == SowAfter(rules, map[], ops)
    ensures AllSafe(rules, indexed, Nothing, ops) ==> topic.Valid()
    decreases |ops|
  {
    if ops == [] {
      topic := new Topic(rules.types, rules.conv, rules.computeKey, indexed);
    } else {
      topic := RunTopic(rules, indexed, ops[..|ops| - 1]);
      ApplyAny(topic, ops[|ops| - 1]);
    }
    if AllKeyed(rules, ops) {
      KeyedRunIsMap(rules, Nothing, ops);
      assert Sow(rules, Nothing) == map[];
    }
  }
}
