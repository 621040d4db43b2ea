/**
 Secondary indexes: per indexed column, an equality map from key to row bitmap
 and an ordered map from range key to row bitmap, kept in lockstep.

 Bitmaps are sets of row numbers.  `Index` is the value an index object holds;
 the class methods change it in place, and the lookups read it.
 */
module SecIndex {
  import opened Wrappers
  import opened Float64
  import opened Orders
  import opened Values
  import opened Bitmaps

  datatype IxKey =
    | IntKey(i: I32)
    | LongKey(n: I64)
    | DoubleBits(d: F64)
    | StringKey(s: string)
    | BoolKey(b: bool)
    | TimestampKey(t: I64)

  /** The constructors are declared in the order the derived `Ord` compares them. */
  datatype RangeKey =
    | IntRange(i: I32)
    | LongRange(n: I64)
    | DoubleOrdered(u: F64)
    | StringRange(s: string)
    | BoolRange(b: bool)
    | TimestampRange(t: I64)

  /** Nulls have no key: they are never indexed. */
  function IxKeyOf(v: Value): (k: Option<IxKey>)
    ensures k.None? <==> v.IsNull()
  {
    match v
    case Null => None
    case String(s) => if s.None? then None else Some(StringKey(s.value))
    case Long(n) => if n == NULL_LONG then None else Some(LongKey(n))
    case Int(i) => if i == NULL_INT then None else Some(IntKey(i))
    case Double(d) => if IsNaN(d) then None else Some(DoubleBits(d))
    case Bool(b) => if b.None? then None else Some(BoolKey(b.value))
    case Timestamp(t) => if t == NULL_TIMESTAMP then None else Some(TimestampKey(t))
    case Bytes(b) => if b.None? then None else Some(StringKey(Base64(b.value)))
  }

  function RangeKeyOf(v: Value): Option<RangeKey> {
    match v
    case Null => None
    case String(s) => if s.None? then None else Some(StringRange(s.value))
    case Long(n) => if n == NULL_LONG then None else Some(LongRange(n))
    case Int(i) => if i == NULL_INT then None else Some(IntRange(i))
    case Double(d) => if IsNaN(d) then None else Some(DoubleOrdered(OrderedBits(d)))
    case Bool(b) => if b.None? then None else Some(BoolRange(b.value))
    case Timestamp(t) => if t == NULL_TIMESTAMP then None else Some(TimestampRange(t))
    case Bytes(b) => if b.None? then None else Some(StringRange(Base64(b.value)))
  }

  // ---- the two key types correspond one to one ----

  function ToRange(k: IxKey): RangeKey {
    match k
    case IntKey(i) => IntRange(i)
    case LongKey(n) => LongRange(n)
    case DoubleBits(d) => DoubleOrdered(OrderedBits(d))
    case StringKey(s) => StringRange(s)
    case BoolKey(b) => BoolRange(b)
    case TimestampKey(t) => TimestampRange(t)
  }

  function FromRange(k: RangeKey): IxKey {
    match k
    case IntRange(i) => IntKey(i)
    case LongRange(n) => LongKey(n)
    case DoubleOrdered(u) => DoubleBits(if u >= TWO63 then u - TWO63 else TWO64 - 1 - u)
    case StringRange(s) => StringKey(s)
    case BoolRange(b) => BoolKey(b)
    case TimestampRange(t) => TimestampKey(t)
  }

  lemma KeysCorrespond(k: IxKey, rk: RangeKey, v: Value)
    ensures FromRange(ToRange(k)) == k && ToRange(FromRange(rk)) == rk
    ensures RangeKeyOf(v) == match IxKeyOf(v) case None => None case Some(x) => Some(ToRange(x))
  {
  }

  // ---- the order of range keys ----

  function KindRank(k: RangeKey): nat {
    match k
    case IntRange(_) => 0
    case LongRange(_) => 1
    case DoubleOrdered(_) => 2
    case StringRange(_) => 3
    case BoolRange(_) => 4
    case TimestampRange(_) => 5
  }

  function CompareKeys(a: RangeKey, b: RangeKey): Ordering {
    if KindRank(a) != KindRank(b) then CompareInt(KindRank(a), KindRank(b))
    else
      match a
      case IntRange(i) => CompareInt(i, b.i)
      case LongRange(n) => CompareInt(n, b.n)
      case DoubleOrdered(u) => CompareInt(u, b.u)
      case StringRange(s) => CompareString(s, b.s)
      case BoolRange(x) => CompareBool(x, b.b)
      case TimestampRange(t) => CompareInt(t, b.t)
  }

  predicate KeyLe(a: RangeKey, b: RangeKey) { CompareKeys(a, b) != Greater }

  predicate KeyLt(a: RangeKey, b: RangeKey) { CompareKeys(a, b) == Less }

  lemma CompareKeysLaws(a: RangeKey, b: RangeKey)
    ensures CompareKeys(b, a) == CompareKeys(a, b).Reverse()
    ensures CompareKeys(a, b) == Equal <==> a == b
  {
    if a.StringRange? && b.StringRange? { CompareStringAntisymmetric(a.s, b.s); }
  }

  // ---- index contents ----

  datatype Index = Index(
    indexedCols: seq<nat>,
    byCol: map<nat, map<IxKey, RowSet>>,
    rangeByCol: map<nat, map<RangeKey, RowSet>>)

  predicate Covers(ix: Index, col: nat) { col in ix.indexedCols }

  /** `row` is filed under `key`. */
  ghost predicate In<K>(m: map<K, RowSet>, key: K, row: nat) { key in m && row in m[key] }

  predicate NoneEmpty<K(!new)>(m: map<K, RowSet>) { forall k :: k in m ==> m[k] != {} }

  /** `entry(key).or_default().insert(row)` */
  function Put<K(!new)>(m: map<K, RowSet>, key: K, row: nat): (m': map<K, RowSet>)
    ensures forall k, r :: In(m', k, r) <==> In(m, k, r) || (k == key && r == row)
    ensures NoneEmpty(m) ==> NoneEmpty(m')
  {
    m[key := (if key in m then m[key] else {}) + {row}]
  }

  /** Drop `row` from the bitmap of `key`, and the bitmap itself once it is empty. */
  function Take<K(!new)>(m: map<K, RowSet>, key: K, row: nat): (m': map<K, RowSet>)
    ensures forall k, r :: In(m', k, r) <==> In(m, k, r) && !(k == key && r == row)
    ensures NoneEmpty(m) ==> NoneEmpty(m')
  {
    if key !in m then m
    else
      var rows := m[key] - {row};
      assert forall r :: r in m[key] && r != row ==> r in rows;
      if rows == {} then map k | k in m && k != key :: m[k] else m[key := rows]
  }

  ghost predicate Files<K>(cols: map<nat, map<K, RowSet>>, col: nat, key: K, row: nat) {
    col in cols && In(cols[col], key, row)
  }

  ghost predicate Has(ix: Index, col: nat, key: IxKey, row: nat) {
    Files(ix.byCol, col, key, row)
  }

  ghost predicate HasRange(ix: Index, col: nat, key: RangeKey, row: nat) {
    Files(ix.rangeByCol, col, key, row)
  }

  /** The two maps cover the indexed columns, hold no empty bitmap, and agree entry by entry. */
  ghost predicate Lockstep(ix: Index) {
    && (forall c :: c in ix.byCol <==> Covers(ix, c))
    && (forall c :: c in ix.rangeByCol <==> Covers(ix, c))
    && (forall c :: c in ix.byCol ==> NoneEmpty(ix.byCol[c]))
    && (forall c :: c in ix.rangeByCol ==> NoneEmpty(ix.rangeByCol[c]))
    && (forall c, k, r :: HasRange(ix, c, k, r) <==> Has(ix, c, FromRange(k), r))
  }

  // ---- range lookups ----

  datatype Bound = Included(key: RangeKey) | Excluded(key: RangeKey) | Unbounded

  predicate Above(lo: Bound, k: RangeKey) {
    match lo case Included(l) => KeyLe(l, k) case Excluded(l) => KeyLt(l, k) case Unbounded => true
  }

  predicate Below(hi: Bound, k: RangeKey) {
    match hi case Included(h) => KeyLe(k, h) case Excluded(h) => KeyLt(k, h) case Unbounded => true
  }

  /** `BTreeMap::range` panics on an inverted range, or an empty one with both ends excluded. */
  predicate RangeIsSafe(lo: Bound, hi: Bound) {
    && (lo != Unbounded && hi != Unbounded ==> KeyLe(lo.key, hi.key))
    && (lo.Excluded? && hi.Excluded? ==> lo.key != hi.key)
  }

  /** Rows filed under some key of the interval. */
  function RowsBetween(m: map<RangeKey, RowSet>, lo: Bound, hi: Bound): RowSet {
    set k, r | k in m && Above(lo, k) && Below(hi, k) && r in m[k] :: r
  }

  function OptionalBound(k: Option<RangeKey>): Bound {
    match k case None => Unbounded case Some(x) => Included(x)
  }

  lemma InvertedRangeIsEmpty(m: map<RangeKey, RowSet>, l: RangeKey, h: RangeKey)
    requires CompareKeys(l, h) == Greater
    ensures RowsBetween(m, Included(l), Included(h)) == {}
  {
    forall k | Above(Included(l), k) && Below(Included(h), k) ensures false {
      CompareKeysLaws(l, h);
      KeyLeTransitive(l, k, h);
    }
  }

  lemma KeyLeTransitive(a: RangeKey, b: RangeKey, c: RangeKey)
    requires KeyLe(a, b) && KeyLe(b, c)
    ensures KeyLe(a, c)
  {
    if a.StringRange? && b.StringRange? && c.StringRange? { CompareStringTransitive(a.s, b.s, c.s); }
  }

  /** Walk the map between two bounds, taking the union of the bitmaps met. */
  method UnionBetween(m: map<RangeKey, RowSet>, lo: Bound, hi: Bound) returns (out: RowSet)
    requires RangeIsSafe(lo, hi)
    ensures out == RowsBetween(m, lo, hi)
  {
    out := {};
    var todo := set k | k in m && Above(lo, k) && Below(hi, k);
    while todo != {}
      invariant forall k :: k in todo ==> k in m && Above(lo, k) && Below(hi, k)
      invariant forall r :: r in out <==>
          exists k :: k in m && k !in todo && Above(lo, k) && Below(hi, k) && r in m[k]
      decreases todo
    {
      var k :| k in todo;
      out := out + m[k];
      todo := todo - {k};
    }
  }

  // ---- histories ----

  datatype IndexOp = AddOp(col: nat, value: Value, row: nat) | RemoveOp(col: nat, value: Value, row: nat)

  /** What a history leaves behind, told without any map: the last operation on an entry decides. */
  ghost predicate LastIsAdd(ops: seq<IndexOp>, col: nat, key: IxKey, row: nat) {
    if ops == [] then false
    else
      var op := ops[|ops| - 1];
      if op.col == col && op.row == row && IxKeyOf(op.value) == Some(key) then op.AddOp?
      else LastIsAdd(ops[..|ops| - 1], col, key, row)
  }

  // ---- one entry more or less ----

  function PutAt<K(!new)>(cols: map<nat, map<K, RowSet>>, col: nat, key: Option<K>, row: nat): map<nat, map<K, RowSet>>
  {
    if col in cols && key.Some? then cols[col := Put(cols[col], key.value, row)] else cols
  }

  function TakeAt<K(!new)>(cols: map<nat, map<K, RowSet>>, col: nat, key: Option<K>, row: nat): map<nat, map<K, RowSet>>
  {
    if col in cols && key.Some? then cols[col := Take(cols[col], key.value, row)] else cols
  }

  lemma PutAtFiles<K(!new)>(cols: map<nat, map<K, RowSet>>, col: nat, key: Option<K>, row: nat, c: nat, k: K, r: nat)
    ensures Files(PutAt(cols, col, key, row), c, k, r) <==>
            Files(cols, c, k, r) || (c in cols && c == col && r == row && key == Some(k))
  {
  }

  lemma TakeAtFiles<K(!new)>(cols: map<nat, map<K, RowSet>>, col: nat, key: Option<K>, row: nat, c: nat, k: K, r: nat)
    ensures Files(TakeAt(cols, col, key, row), c, k, r) <==>
            Files(cols, c, k, r) && !(c == col && r == row && key == Some(k))
  {
  }

  function AddedTo(ix: Index, col: nat, value: Value, row: nat): Index {
    ix.(byCol := PutAt(ix.byCol, col, IxKeyOf(value), row),
        rangeByCol := PutAt(ix.rangeByCol, col, RangeKeyOf(value), row))
  }

  function RemovedFrom(ix: Index, col: nat, value: Value, row: nat): Index {
    ix.(byCol := TakeAt(ix.byCol, col, IxKeyOf(value), row),
        rangeByCol := TakeAt(ix.rangeByCol, col, RangeKeyOf(value), row))
  }

  lemma AddedHas(ix: Index, col: nat, value: Value, row: nat, c: nat, k: IxKey, rk: RangeKey, r: nat)
    requires Lockstep(ix)
    ensures var ix', here := AddedTo(ix, col, value, row), Covers(ix, c) && c == col && r == row;
            && (Has(ix', c, k, r) <==> Has(ix, c, k, r) || (here && IxKeyOf(value) == Some(k)))
            && (HasRange(ix', c, rk, r) <==> HasRange(ix, c, rk, r) || (here && RangeKeyOf(value) == Some(rk)))
  {
    PutAtFiles(ix.byCol, col, IxKeyOf(value), row, c, k, r);
    PutAtFiles(ix.rangeByCol, col, RangeKeyOf(value), row, c, rk, r);
  }

  lemma RemovedHas(ix: Index, col: nat, value: Value, row: nat, c: nat, k: IxKey, rk: RangeKey, r: nat)
    ensures var ix', here := RemovedFrom(ix, col, value, row), c == col && r == row;
            && (Has(ix', c, k, r) <==> Has(ix, c, k, r) && !(here && IxKeyOf(value) == Some(k)))
            && (HasRange(ix', c, rk, r) <==> HasRange(ix, c, rk, r) && !(here && RangeKeyOf(value) == Some(rk)))
  {
    TakeAtFiles(ix.byCol, col, IxKeyOf(value), row, c, k, r);
    TakeAtFiles(ix.rangeByCol, col, RangeKeyOf(value), row, c, rk, r);
  }

  lemma RangeKeyNamed(value: Value, rk: RangeKey)
    ensures RangeKeyOf(value) == Some(rk) <==> IxKeyOf(value) == Some(FromRange(rk))
  {
    KeysCorrespond(if IxKeyOf(value).Some? then IxKeyOf(value).value else BoolKey(true), rk, value);
  }

  lemma AddedLockstep(ix: Index, col: nat, value: Value, row: nat)
    requires Lockstep(ix)
    ensures Lockstep(AddedTo(ix, col, value, row))
  {
    var ix' := AddedTo(ix, col, value, row);
    forall c, k, r ensures HasRange(ix', c, k, r) <==> Has(ix', c, FromRange(k), r) {
      AddedHas(ix, col, value, row, c, FromRange(k), k, r);
      RangeKeyNamed(value, k);
    }
  }

  lemma RemovedLockstep(ix: Index, col: nat, value: Value, row: nat)
    requires Lockstep(ix)
    ensures Lockstep(RemovedFrom(ix, col, value, row))
  {
    var ix' := RemovedFrom(ix, col, value, row);
    forall c, k, r ensures HasRange(ix', c, k, r) <==> Has(ix', c, FromRange(k), r) {
      RemovedHas(ix, col, value, row, c, FromRange(k), k, r);
      RangeKeyNamed(value, k);
    }
  }

  /** The second index has the entry of a value of a row besides those of the first. */
  ghost predicate Gains(ix: Index, ix': Index, col: nat, value: Value, row: nat) {
    forall c: nat, k, r: nat :: Has(ix', c, k, r) <==>
      Has(ix, c, k, r) || (Covers(ix, c) && c == col && r == row && IxKeyOf(value) == Some(k))
  }

  /** The second index has the entries of the first but that of a value of a row. */
  ghost predicate Loses(ix: Index, ix': Index, col: nat, value: Value, row: nat) {
    forall c: nat, k, r: nat :: Has(ix', c, k, r) <==>
      Has(ix, c, k, r) && !(c == col && r == row && IxKeyOf(value) == Some(k))
  }

  lemma AddedGains(ix: Index, col: nat, value: Value, row: nat)
    requires Lockstep(ix)
    ensures Gains(ix, AddedTo(ix, col, value, row), col, value, row)
  {
    forall c: nat, k, r: nat
      ensures Has(AddedTo(ix, col, value, row), c, k, r) <==>
              Has(ix, c, k, r) || (Covers(ix, c) && c == col && r == row && IxKeyOf(value) == Some(k))
    {
      AddedHas(ix, col, value, row, c, k, ToRange(k), r);
    }
  }

  lemma RemovedLoses(ix: Index, col: nat, value: Value, row: nat)
    requires Lockstep(ix)
    ensures Loses(ix, RemovedFrom(ix, col, value, row), col, value, row)
  {
    forall c: nat, k, r: nat
      ensures Has(RemovedFrom(ix, col, value, row), c, k, r) <==>
              Has(ix, c, k, r) && !(c == col && r == row && IxKeyOf(value) == Some(k))
    {
      RemovedHas(ix, col, value, row, c, k, ToRange(k), r);
    }
  }

  class SecondaryIndex {
    var indexedCols: seq<nat>
    var byCol: map<nat, map<IxKey, RowSet>>
    var rangeByCol: map<nat, map<RangeKey, RowSet>>

    ghost function View(): Index
      reads this
    {
      Index(indexedCols, byCol, rangeByCol)
    }

    ghost predicate Valid()
      reads this
    {
      Lockstep(View())
    }

    constructor (cols: seq<nat>)
      ensures Valid() && indexedCols == cols
      ensures forall c, k, r :: !Has(View(), c, k, r)
    {
      indexedCols := cols;
      byCol := map c | c in cols :: map[];
      rangeByCol := map c | c in cols :: map[];
    }

    method Add(col: nat, value: Value, row: nat)
      requires Valid()
      modifies this
      ensures Valid() && indexedCols == old(indexedCols)
      ensures Gains(old(View()), View(), col, value, row)
    {
      if col in byCol && IxKeyOf(value).Some? {
        byCol := byCol[col := Put(byCol[col], IxKeyOf(value).value, row)];
      }
      if col in rangeByCol && RangeKeyOf(value).Some? {
        rangeByCol := rangeByCol[col := Put(rangeByCol[col], RangeKeyOf(value).value, row)];
      }
      ghost var ix := old(View());
      assert View() == AddedTo(ix, col, value, row);
      AddedLockstep(ix, col, value, row);
      AddedGains(ix, col, value, row);
    }

    method Remove(col: nat, value: Value, row: nat)
      requires Valid()
      modifies this
      ensures Valid() && indexedCols == old(indexedCols)
      ensures Loses(old(View()), View(), col, value, row)
    {
      if col in byCol && IxKeyOf(value).Some? {
        byCol := byCol[col := Take(byCol[col], IxKeyOf(value).value, row)];
      }
      if col in rangeByCol && RangeKeyOf(value).Some? {
        rangeByCol := rangeByCol[col := Take(rangeByCol[col], RangeKeyOf(value).value, row)];
      }
      ghost var ix := old(View());
      assert View() == RemovedFrom(ix, col, value, row);
      RemovedLockstep(ix, col, value, row);
      RemovedLoses(ix, col, value, row);
    }

    /** Rows whose key lies in a closed interval, either end of which may be open-ended. */
    method RowsInRange(col: nat, lo: Option<RangeKey>, hi: Option<RangeKey>) returns (rows: Option<RowSet>)
      requires Valid()
      ensures rows.Some? <==> Covers(View(), col)
      ensures rows.Some? ==> forall r :: r in rows.value <==>
          exists k :: HasRange(View(), col, k, r)
                      && (lo.Some? ==> KeyLe(lo.value, k)) && (hi.Some? ==> KeyLe(k, hi.value))
      ensures rows.Some? ==> rows.value == RowsBetween(rangeByCol[col], OptionalBound(lo), OptionalBound(hi))
    {
      if col !in rangeByCol { return None; }
      var m := rangeByCol[col];
      if lo.Some? && hi.Some? {
        CompareKeysLaws(lo.value, hi.value);
        if CompareKeys(lo.value, hi.value) == Greater {
          InvertedRangeIsEmpty(m, lo.value, hi.value);
          assert forall r :: r !in RowsBetween(m, OptionalBound(lo), OptionalBound(hi));
          return Some({});
        }
      }
      var out := UnionBetween(m, OptionalBound(lo), OptionalBound(hi));
      forall r
        ensures r in out <==>
                exists k :: HasRange(View(), col, k, r)
                            && (lo.Some? ==> KeyLe(lo.value, k)) && (hi.Some? ==> KeyLe(k, hi.value))
      {
        if r in out {
          var k :| k in m && Above(OptionalBound(lo), k) && Below(OptionalBound(hi), k) && r in m[k];
          assert HasRange(View(), col, k, r);
        }
      }
      return Some(out);
    }

    method RowsGreaterThan(col: nat, lo: RangeKey) returns (rows: Option<RowSet>)
      requires Valid()
      ensures rows.Some? <==> Covers(View(), col)
      ensures rows.Some? ==> forall r :: r in rows.value <==>
          exists k :: HasRange(View(), col, k, r) && KeyLt(lo, k)
      ensures rows.Some? ==> rows.value == RowsBetween(rangeByCol[col], Excluded(lo), Unbounded)
    {
      if col !in rangeByCol { return None; }
      var out := UnionBetween(rangeByCol[col], Excluded(lo), Unbounded);
      return Some(out);
    }

    method RowsLessThan(col: nat, hi: RangeKey) returns (rows: Option<RowSet>)
      requires Valid()
      ensures rows.Some? <==> Covers(View(), col)
      ensures rows.Some? ==> forall r :: r in rows.value <==>
          exists k :: HasRange(View(), col, k, r) && KeyLt(k, hi)
      ensures rows.Some? ==> rows.value == RowsBetween(rangeByCol[col], Unbounded, Excluded(hi))
    {
      if col !in rangeByCol { return None; }
      var out := UnionBetween(rangeByCol[col], Unbounded, Excluded(hi));
      return Some(out);
    }
  }

  /** Any sequence of additions and removals keeps the maps in lockstep, and its last word on an entry stands. */
  method RunHistory(cols: seq<nat>, ops: seq<IndexOp>) returns (ix: SecondaryIndex)
    ensures fresh(ix) && ix.Valid() && ix.indexedCols == cols
    ensures forall c, k, r :: Has(ix.View(), c, k, r) <==> c in cols && LastIsAdd(ops, c, k, r)
  {
    ix := new SecondaryIndex(cols);
    for i := 0 to |ops|
      invariant fresh(ix) && ix.Valid() && ix.indexedCols == cols
      invariant forall c, k, r :: Has(ix.View(), c, k, r) <==> c in cols && LastIsAdd(ops[..i], c, k, r)
    {
      assert ops[..i + 1][..i] == ops[..i] && ops[..i + 1][i] == ops[i];
      match ops[i]
      case AddOp(col, value, row) => ix.Add(col, value, row);
      case RemoveOp(col, value, row) => ix.Remove(col, value, row);
    }
    assert ops[..|ops|] == ops;
  }
}
