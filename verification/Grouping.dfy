/**
 Group keys, and the first-seen partition that GROUP BY, PARTITION BY and PIVOT
 all build: a map from key to members beside the list of keys in order of
 appearance.
 */
module Grouping {
  import opened Wrappers
  import opened Float64
  import opened Values
  import opened Bitmaps

  datatype KeyPart =
    | NullPart
    | IntPart(i: I32)
    | LongPart(n: I64)
    | DoublePart(bits: F64)
    | StringPart(s: string)
    | BoolPart(b: bool)
    | TimestampPart(t: I64)

  type GroupKey = seq<KeyPart>

  /** Null is a group of its own; byte strings are keyed by their base64 text. */
  function PartOf(v: Value): (part: KeyPart)
    ensures part.NullPart? <==> v.IsNull()
  {
    if v.IsNull() then NullPart
    else
      match v
      case Double(d) => DoublePart(d)
      case Long(n) => LongPart(n)
      case Int(i) => IntPart(i)
      case String(s) => StringPart(s.value)
      case Bool(b) => BoolPart(b.value)
      case Timestamp(t) => TimestampPart(t)
      case Bytes(bytes) => StringPart(Base64(bytes.value))
  }

  ghost predicate Injective<A(!new), B>(f: A -> B) { forall x, y :: f(x) == f(y) ==> x == y }

  /** Two cells of one column share a group exactly when they are equal or both null. */
  lemma SameGroup(a: Value, b: Value, ty: ColumnType)
    requires a.HasType(ty) && b.HasType(ty)
    ensures PartOf(a) == PartOf(b) <==> a == b || (a.IsNull() && b.IsNull())
  {
    if ty == BytesType && a.bytes.Some? && b.bytes.Some? {
      var x, y := a.bytes.value, b.bytes.value;
      if Base64(x) == Base64(y) { Base64Injective(x, y); }
    }
  }

  function KeyOf(cols: seq<nat>, row: Row): (key: GroupKey)
    requires forall i :: 0 <= i < |cols| ==> cols[i] < |row|
    ensures |key| == |cols|
  {
    seq(|cols|, i requires 0 <= i < |cols| => PartOf(row[cols[i]]))
  }

  // ---- first-seen partition ----

  /** The distinct keys in order of first appearance. */
  ghost function FirstSeen<K(!new)>(keys: seq<K>): seq<K> {
    if keys == [] then []
    else
      var front := FirstSeen(keys[..|keys| - 1]);
      if keys[|keys| - 1] in front then front else front + [keys[|keys| - 1]]
  }

  ghost predicate Distinct<K(!new)>(s: seq<K>) { forall i, j :: 0 <= i < j < |s| ==> s[i] != s[j] }

  ghost predicate FirstAt<K(!new)>(keys: seq<K>, key: K, i: nat) {
    i < |keys| && keys[i] == key && key !in keys[..i]
  }

  /** Each key once, no other, earlier first appearance first. */
  lemma {:induction false} FirstSeenLaws<K(!new)>(keys: seq<K>)
    ensures Distinct(FirstSeen(keys))
    ensures forall k :: k in FirstSeen(keys) <==> k in keys
  {
    if keys != [] {
      var front := keys[..|keys| - 1];
      FirstSeenLaws(front);
      assert forall k :: k in keys <==> k in front || k == keys[|keys| - 1];
    }
  }

  lemma {:induction false} FirstSeenOrder<K(!new)>(keys: seq<K>, a: nat, b: nat, i: nat, j: nat)
    requires a < b < |FirstSeen(keys)|
    requires FirstAt(keys, FirstSeen(keys)[a], i) && FirstAt(keys, FirstSeen(keys)[b], j)
    ensures i < j
  {
    var front := keys[..|keys| - 1];
    FirstSeenLaws(front);
    FirstSeenLaws(keys);
    var f := FirstSeen(front);
    assert f[a] in front;
    assert front[..i] == keys[..i];
    if j < |front| {
      assert front[..j] == keys[..j];
      assert front[j] in front;
      FirstSeenOrder(front, a, b, i, j);
    }
  }

  lemma FirstSeenSnoc<K(!new)>(keys: seq<K>, key: K)
    ensures FirstSeen(keys + [key]) == if key in keys then FirstSeen(keys) else FirstSeen(keys) + [key]
  {
    assert (keys + [key])[..|keys|] == keys;
    FirstSeenLaws(keys);
  }

  // ---- grouped folds over rows ----

  function Fold<S>(init: S, step: (S, nat) -> S, rows: seq<nat>): S {
    if rows == [] then init else step(Fold(init, step, rows[..|rows| - 1]), rows[|rows| - 1])
  }

  /** The rows that carry `key`, in the order given. */
  ghost function Members<K(!new)>(rows: seq<nat>, keyOf: nat -> K, key: K): seq<nat> {
    if rows == [] then []
    else Members(rows[..|rows| - 1], keyOf, key) + if keyOf(rows[|rows| - 1]) == key then [rows[|rows| - 1]] else []
  }

  ghost function Keys<K(!new)>(rows: seq<nat>, keyOf: nat -> K): (keys: seq<K>)
    ensures |keys| == |rows|
  {
    seq(|rows|, i requires 0 <= i < |rows| => keyOf(rows[i]))
  }

  lemma {:induction false} MembersAre<K(!new)>(rows: seq<nat>, keyOf: nat -> K, key: K, r: nat)
    ensures r in Members(rows, keyOf, key) <==> r in rows && keyOf(r) == key
  {
    if rows != [] {
      MembersAre(rows[..|rows| - 1], keyOf, key, r);
    }
  }

  lemma {:induction false} MembersAscend<K(!new)>(rows: seq<nat>, keyOf: nat -> K, key: K)
    requires StrictlyUp(rows)
    ensures StrictlyUp(Members(rows, keyOf, key))
  {
    if rows != [] {
      var front := rows[..|rows| - 1];
      MembersAscend(front, keyOf, key);
      var m := Members(front, keyOf, key);
      forall i | 0 <= i < |m| ensures m[i] < rows[|rows| - 1] {
        assert m[i] in m;
        MembersAre(front, keyOf, key, m[i]);
        var j :| 0 <= j < |front| && front[j] == m[i];
      }
    }
  }

  lemma MembersSnoc<K(!new)>(rows: seq<nat>, keyOf: nat -> K, row: nat, key: K)
    ensures Members(rows + [row], keyOf, key) ==
            if keyOf(row) == key then Members(rows, keyOf, key) + [row] else Members(rows, keyOf, key)
  {
    assert (rows + [row])[..|rows|] == rows;
    assert Members(rows, keyOf, key) + [] == Members(rows, keyOf, key);
  }

  lemma FoldSnoc<S>(init: S, step: (S, nat) -> S, rows: seq<nat>, row: nat)
    ensures Fold(init, step, rows + [row]) == step(Fold(init, step, rows), row)
  {
    assert (rows + [row])[..|rows|] == rows;
  }

  lemma {:induction false} NoMembers<K(!new)>(rows: seq<nat>, keyOf: nat -> K, key: K)
    requires key !in Keys(rows, keyOf)
    ensures Members(rows, keyOf, key) == []
  {
    if rows != [] {
      var front := rows[..|rows| - 1];
      assert keyOf(rows[|rows| - 1]) == Keys(rows, keyOf)[|rows| - 1];
      assert Keys(front, keyOf) == Keys(rows, keyOf)[..|front|];
      NoMembers(front, keyOf, key);
    }
  }

  /** One accumulated state per key, the keys in order of first appearance. */
  ghost predicate Grouped<K(!new), S>(groups: map<K, S>, order: seq<K>, rows: seq<nat>,
                                      keyOf: nat -> K, init: S, step: (S, nat) -> S) {
    && order == FirstSeen(Keys(rows, keyOf))
    && KeyedBy(groups, Keys(rows, keyOf))
    && Folded(groups, rows, keyOf, init, step)
  }

  ghost predicate KeyedBy<K(!new), S>(groups: map<K, S>, keys: seq<K>) { forall k :: k in groups <==> k in keys }

  ghost predicate Folded<K(!new), S>(groups: map<K, S>, rows: seq<nat>, keyOf: nat -> K, init: S, step: (S, nat) -> S) {
    forall k :: k in groups ==> groups[k] == Fold(init, step, Members(rows, keyOf, k))
  }

  lemma GroupSnoc<K(!new), S>(rows: seq<nat>, keyOf: nat -> K, init: S, step: (S, nat) -> S, row: nat, key: K)
    ensures Fold(init, step, Members(rows + [row], keyOf, key)) ==
            if keyOf(row) == key then step(Fold(init, step, Members(rows, keyOf, key)), row)
            else Fold(init, step, Members(rows, keyOf, key))
  {
    MembersSnoc(rows, keyOf, row, key);
    FoldSnoc(init, step, Members(rows, keyOf, key), row);
  }

  function Touch<K, S>(groups: map<K, S>, key: K, init: S, step: (S, nat) -> S, row: nat): map<K, S> {
    groups[key := step(if key in groups then groups[key] else init, row)]
  }

  lemma FoldedStep<K(!new), S>(groups: map<K, S>, rows: seq<nat>, keyOf: nat -> K, init: S, step: (S, nat) -> S,
                               row: nat)
    requires KeyedBy(groups, Keys(rows, keyOf)) && Folded(groups, rows, keyOf, init, step)
    ensures Folded(Touch(groups, keyOf(row), init, step, row), rows + [row], keyOf, init, step)
  {
    var key := keyOf(row);
    if key !in groups { NoMembers(rows, keyOf, key); }
    var groups' := Touch(groups, key, init, step, row);
    forall k | k in groups' ensures groups'[k] == Fold(init, step, Members(rows + [row], keyOf, k)) {
      GroupSnoc(rows, keyOf, init, step, row, k);
    }
  }

  lemma GroupedStep<K(!new), S>(groups: map<K, S>, order: seq<K>, rows: seq<nat>, keyOf: nat -> K, init: S,
                                step: (S, nat) -> S, row: nat)
    requires Grouped(groups, order, rows, keyOf, init, step)
    ensures Grouped(Touch(groups, keyOf(row), init, step, row),
                    if keyOf(row) in groups then order else order + [keyOf(row)],
                    rows + [row], keyOf, init, step)
  {
    FoldedStep(groups, rows, keyOf, init, step, row);
    assert Keys(rows + [row], keyOf) == Keys(rows, keyOf) + [keyOf(row)];
    FirstSeenSnoc(Keys(rows, keyOf), keyOf(row));
  }

  /** The one-pass grouped fold: every group ends with the fold over exactly its own rows. */
  method GroupFold<K(==, !new), S>(rows: seq<nat>, keyOf: nat -> K, init: S, step: (S, nat) -> S)
    returns (groups: map<K, S>, order: seq<K>)
    ensures Grouped(groups, order, rows, keyOf, init, step)
  {
    groups, order := map[], [];
    for i := 0 to |rows|
      invariant Grouped(groups, order, rows[..i], keyOf, init, step)
    {
      var key := keyOf(rows[i]);
      assert rows[..i + 1] == rows[..i] + [rows[i]];
      GroupedStep(groups, order, rows[..i], keyOf, init, step, rows[i]);
      if key !in groups {
        order := order + [key];
        groups := groups[key := init];
      }
      groups := groups[key := step(groups[key], rows[i])];
    }
    assert rows[..|rows|] == rows;
  }

  /** Only which rows carry the key matters. */
  lemma {:induction false} SameMembers<A(!new), B(!new)>(rows: seq<nat>, f: nat -> A, a: A, g: nat -> B, b: B)
    requires forall r: nat :: r in rows ==> (f(r) == a <==> g(r) == b)
    ensures Members(rows, f, a) == Members(rows, g, b)
  {
    if rows != [] { SameMembers(rows[..|rows| - 1], f, a, g, b); }
  }

  // ---- folds of the rows that have a key ----

  /** Each key's state is the fold over its rows; a key without rows has none. */
  ghost predicate Indexed<K(!new), S>(index: map<K, S>, rows: seq<nat>, keyOf: nat -> Option<K>, init: S,
                                      step: (S, nat) -> S)
  {
    forall k ::
      (if k in index then index[k] else init) == Fold(init, step, Members(rows, keyOf, Some(k)))
  }

  lemma IndexedStep<K(!new), S>(index: map<K, S>, rows: seq<nat>, keyOf: nat -> Option<K>, init: S,
                                step: (S, nat) -> S, row: nat)
    requires Indexed(index, rows, keyOf, init, step)
    ensures Indexed(if keyOf(row).Some? then Touch(index, keyOf(row).value, init, step, row) else index,
                    rows + [row], keyOf, init, step)
  {
    var index' := if keyOf(row).Some? then Touch(index, keyOf(row).value, init, step, row) else index;
    forall k
      ensures (if k in index' then index'[k] else init) == Fold(init, step, Members(rows + [row], keyOf, Some(k)))
    {
      GroupSnoc(rows, keyOf, init, step, row, Some(k));
    }
  }

  /** Rows without a key are passed over. */
  method IndexFold<K(==, !new), S>(rows: seq<nat>, keyOf: nat -> Option<K>, init: S, step: (S, nat) -> S)
    returns (index: map<K, S>)
    ensures Indexed(index, rows, keyOf, init, step)
  {
    index := map[];
    for i := 0 to |rows|
      invariant Indexed(index, rows[..i], keyOf, init, step)
    {
      assert rows[..i + 1] == rows[..i] + [rows[i]];
      IndexedStep(index, rows[..i], keyOf, init, step, rows[i]);
      var key := keyOf(rows[i]);
      if key.Some? { index := Touch(index, key.value, init, step, rows[i]); }
    }
    assert rows[..|rows|] == rows;
  }

  // ---- one output per group ----

  /** What `make` gives for the keys of `order`, in that order; keys it refuses are skipped. */
  ghost function Collect<K, V>(order: seq<K>, make: K -> Option<V>): seq<V> {
    if order == [] then []
    else
      var made := make(order[|order| - 1]);
      Collect(order[..|order| - 1], make) + if made.Some? then [made.value] else []
  }

  lemma {:induction false} CollectAre<K(!new), V(!new)>(order: seq<K>, make: K -> Option<V>, v: V)
    ensures v in Collect(order, make) <==> exists k :: k in order && make(k) == Some(v)
  {
    if order != [] {
      var front, last := order[..|order| - 1], order[|order| - 1];
      CollectAre(front, make, v);
      assert forall k :: k in order <==> k in front || k == last;
    }
  }

  /** Over first-seen groups: a value comes out exactly when the key of some row makes it. */
  lemma CollectGroups<K(!new), V(!new)>(rows: seq<nat>, keyOf: nat -> K, make: K -> Option<V>, v: V)
    ensures v in Collect(FirstSeen(Keys(rows, keyOf)), make) <==>
            exists r: nat :: r in rows && make(keyOf(r)) == Some(v)
  {
    var keys := Keys(rows, keyOf);
    FirstSeenLaws(keys);
    CollectAre(FirstSeen(keys), make, v);
    if v in Collect(FirstSeen(keys), make) {
      var k :| k in FirstSeen(keys) && make(k) == Some(v);
      var j :| 0 <= j < |keys| && keys[j] == k;
      assert rows[j] in rows && make(keyOf(rows[j])) == Some(v);
    }
    if r: nat :| r in rows && make(keyOf(r)) == Some(v) {
      var j :| 0 <= j < |rows| && rows[j] == r;
      assert keys[j] == keyOf(r);
    }
  }

  // ---- partitions of result positions ----

  function Push(part: seq<nat>, i: nat): seq<nat> { part + [i] }

  lemma {:induction false} FoldPush(rows: seq<nat>)
    ensures Fold([], Push, rows) == rows
  {
    if rows != [] { FoldPush(rows[..|rows| - 1]); }
  }

  /** Positions 0..n by key: each key's positions, ascending. */
  method Partition<K(==, !new)>(n: nat, keyOf: nat -> K) returns (parts: map<K, seq<nat>>, order: seq<K>)
    ensures order == FirstSeen(Keys(UpTo(n), keyOf))
    ensures forall k :: k in parts <==> k in order
    ensures forall k :: k in parts ==> parts[k] == Members(UpTo(n), keyOf, k)
  {
    parts, order := GroupFold(UpTo(n), keyOf, [], Push);
    FirstSeenLaws(Keys(UpTo(n), keyOf));
    forall k | k in parts ensures parts[k] == Members(UpTo(n), keyOf, k) {
      FoldPush(Members(UpTo(n), keyOf, k));
    }
  }
}
