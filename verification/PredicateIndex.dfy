/**
 Selective fan-out: which subscriptions a mutation of some columns must re-evaluate.
 */
module PredicateIndexes {
  import opened Wrappers
  import opened Orders
  import opened Values
  import opened Predicates

  type SubId = string

  /** Whether a mutation of the given columns can concern a subscription; `None` is "unknown columns". */
  ghost predicate Concerns(registered: map<SubId, Predicate>, changed: Option<seq<nat>>, s: SubId) {
    s in registered && (changed.None? || Columns(registered[s]) == [] || Touches(changed.value, registered[s]))
  }

  ghost predicate Touches(changed: seq<nat>, p: Predicate) { exists c :: c in changed && c in Columns(p) }

  /** Sorted, without repetitions. */
  method ReferencedColumns(p: Predicate) returns (cols: seq<nat>)
    ensures StrictlyAscending(NatLe, cols)
    ensures forall c: nat :: c in cols <==> c in Columns(p)
  {
    cols := SortDedup(Columns(p), NatLe);
  }

  function Without(list: seq<SubId>, sub: SubId): (r: seq<SubId>)
    ensures forall s :: s in r <==> s in list && s != sub
  {
    if list == [] then []
    else (if list[0] == sub then [] else [list[0]]) + Without(list[1..], sub)
  }

  type ColumnLists = map<nat, seq<SubId>>

  /** Column `c` lists subscription `s`. */
  ghost predicate Lists(m: ColumnLists, c: nat, s: SubId) { c in m && s in m[c] }

  ghost predicate NoEmptyList(m: ColumnLists) { forall c :: c in m ==> m[c] != [] }

  /** `entry(col).or_default().push(sub)` */
  function Listed(m: ColumnLists, col: nat, sub: SubId): (m': ColumnLists)
    ensures forall c: nat, s :: Lists(m', c, s) <==> Lists(m, c, s) || (c == col && s == sub)
    ensures NoEmptyList(m) ==> NoEmptyList(m')
  {
    m[col := (if col in m then m[col] else []) + [sub]]
  }

  /** Drop a subscription from one column's list, and the list once it is empty. */
  function Unlisted(m: ColumnLists, col: nat, sub: SubId): (m': ColumnLists)
    ensures forall c: nat, s :: Lists(m', c, s) <==> Lists(m, c, s) && !(c == col && s == sub)
    ensures NoEmptyList(m) ==> NoEmptyList(m')
  {
    if col !in m then m
    else
      var list := Without(m[col], sub);
      assert forall s :: s in m[col] && s != sub ==> s in list;
      if list == [] then map c | c in m && c != col :: m[c] else m[col := list]
  }

  class PredicateIndex {
    var colToSubs: ColumnLists
    var alwaysSubs: seq<SubId>
    var subToCols: map<SubId, seq<nat>>
    ghost var registered: map<SubId, Predicate>

    /** The reverse map holds exactly the columns each registered predicate references. */
    ghost predicate ReverseMapRight()
      reads this
    {
      && (forall s :: s in subToCols <==> s in registered)
      && forall s, c: nat :: s in subToCols ==> (c in subToCols[s] <==> c in Columns(registered[s]))
    }

    /** Each column lists exactly the subscriptions that reference it; no list is empty. */
    ghost predicate Valid()
      reads this
    {
      && ReverseMapRight()
      && (forall c: nat, s :: Lists(colToSubs, c, s) <==> s in subToCols && c in subToCols[s])
      && NoEmptyList(colToSubs)
      && (forall s :: s in alwaysSubs <==> s in subToCols && subToCols[s] == [])
    }

    constructor ()
      ensures Valid() && registered == map[]
    {
      colToSubs, alwaysSubs, subToCols, registered := map[], [], map[], map[];
    }

    /** Put `sub` on the list of each of the columns. */
    method Enlist(cols: seq<nat>, sub: SubId)
      requires NoEmptyList(colToSubs)
      modifies this`colToSubs
      ensures NoEmptyList(colToSubs)
      ensures forall c: nat, s :: Lists(colToSubs, c, s) <==> Lists(old(colToSubs), c, s) || (s == sub && c in cols)
    {
      for i := 0 to |cols|
        invariant NoEmptyList(colToSubs)
        invariant forall c: nat, s :: Lists(colToSubs, c, s) <==>
            Lists(old(colToSubs), c, s) || (s == sub && c in cols[..i])
      {
        colToSubs := Listed(colToSubs, cols[i], sub);
        assert cols[..i + 1] == cols[..i] + [cols[i]];
      }
      assert cols[..|cols|] == cols;
    }

    /** Take `sub` off the list of each of the columns. */
    method Unlist(cols: seq<nat>, sub: SubId)
      requires NoEmptyList(colToSubs)
      modifies this`colToSubs
      ensures NoEmptyList(colToSubs)
      ensures forall c: nat, s :: Lists(colToSubs, c, s) <==> Lists(old(colToSubs), c, s) && !(s == sub && c in cols)
    {
      for i := 0 to |cols|
        invariant NoEmptyList(colToSubs)
        invariant forall c: nat, s :: Lists(colToSubs, c, s) <==>
            Lists(old(colToSubs), c, s) && !(s == sub && c in cols[..i])
      {
        colToSubs := Unlisted(colToSubs, cols[i], sub);
        assert cols[..i + 1] == cols[..i] + [cols[i]];
      }
      assert cols[..|cols|] == cols;
    }

    method Remove(sub: SubId)
      requires Valid()
      modifies this
      ensures Valid() && registered == old(registered) - {sub}
    {
      if sub in subToCols {
        var cols := subToCols[sub];
        subToCols := subToCols - {sub};
        registered := registered - {sub};
        if cols == [] {
          alwaysSubs := Without(alwaysSubs, sub);
        } else {
          Unlist(cols, sub);
        }
      } else {
        assert registered - {sub} == registered;
      }
    }

    /** Register a subscription, dropping what was registered under its id before. */
    method Add(sub: SubId, p: Predicate)
      requires Valid()
      modifies this
      ensures Valid() && registered == old(registered)[sub := p]
    {
      if sub in subToCols { Remove(sub); }
      Register(sub, p);
      assert registered == old(registered)[sub := p];
    }

    /** Register a subscription whose id is not in use. */
    method Register(sub: SubId, p: Predicate)
      requires Valid() && sub !in subToCols
      modifies this
      ensures Valid() && registered == old(registered)[sub := p]
    {
      var cols := ReferencedColumns(p);
      if cols == [] {
        alwaysSubs := alwaysSubs + [sub];
      } else {
        Enlist(cols, sub);
      }
      subToCols := subToCols[sub := cols];
      registered := registered[sub := p];
    }

    /** The union of the lists of the changed columns, or of all columns. */
    method Dispatched(changed: Option<seq<nat>>) returns (out: seq<SubId>)
      ensures forall s :: s in out <==>
          s in alwaysSubs || exists c: nat :: (changed.None? || c in changed.value) && Lists(colToSubs, c, s)
    {
      out := alwaysSubs;
      match changed {
        case Some(cols) =>
          for i := 0 to |cols|
            invariant forall s :: s in out <==>
                s in alwaysSubs || exists c :: c in cols[..i] && Lists(colToSubs, c, s)
          {
            ghost var before := out;
            if cols[i] in colToSubs { out := out + colToSubs[cols[i]]; }
            assert cols[..i + 1] == cols[..i] + [cols[i]];
            forall s | s in out
              ensures s in alwaysSubs || exists c :: c in cols[..i + 1] && Lists(colToSubs, c, s)
            {
              if s !in before {
                assert cols[i] in cols[..i + 1] && Lists(colToSubs, cols[i], s);
              } else if s !in alwaysSubs {
                var c :| c in cols[..i] && Lists(colToSubs, c, s);
                assert c in cols[..i + 1];
              }
            }
          }
          assert cols[..|cols|] == cols;
        case None =>
          var todo := colToSubs.Keys;
          while todo != {}
            invariant todo <= colToSubs.Keys
            invariant forall s :: s in out <==>
                s in alwaysSubs || exists c :: c !in todo && Lists(colToSubs, c, s)
            decreases todo
          {
            var c :| c in todo;
            out := out + colToSubs[c];
            todo := todo - {c};
          }
      }
    }

    /**
     The subscriptions to re-evaluate, sorted, each once: those without columns and
     those referencing a changed column; every one when the changed set is unknown.
     */
    method Affected(changed: Option<seq<nat>>) returns (subs: seq<SubId>)
      requires Valid()
      ensures StrictlyAscending(StringLe, subs)
      ensures forall s :: s in subs <==> Concerns(registered, changed, s)
    {
      var out := Dispatched(changed);
      forall s ensures s in out <==> Concerns(registered, changed, s) {
        if s in registered { ColumnsEmptyTogether(s); }
        if s in out && s !in alwaysSubs {
          var c: nat :| (changed.None? || c in changed.value) && Lists(colToSubs, c, s);
        }
        if s in registered && subToCols[s] != [] && changed.None? {
          assert Lists(colToSubs, subToCols[s][0], s);
        }
        if s in registered && changed.Some? && Touches(changed.value, registered[s]) {
          var c :| c in changed.value && c in Columns(registered[s]);
          assert Lists(colToSubs, c, s);
        }
      }
      StringLeIsTotalOrder();
      subs := SortDedup(out, StringLe);
    }

    lemma ColumnsEmptyTogether(s: SubId)
      requires Valid() && s in registered
      ensures subToCols[s] == [] <==> Columns(registered[s]) == []
    {
      var cols, refs := subToCols[s], Columns(registered[s]);
      if cols != [] { assert cols[0] in refs; }
      if refs != [] { assert refs[0] in cols; }
    }
  }

  /** Fan-out has no false negatives: a subscription left out sees no change. */
  lemma NoFalseNegatives(lib: Library, registered: map<SubId, Predicate>, changed: seq<nat>, s: SubId,
                         types: seq<ColumnType>, before: Row, after: Row)
    requires s in registered && Fits(registered[s], types) && RowTyped(types, before) && RowTyped(types, after)
    requires forall c: nat :: c < |types| && c !in changed ==> before[c] == after[c]
    requires !Concerns(registered, Some(changed), s)
    ensures Eval(lib, registered[s], types, before) == Eval(lib, registered[s], types, after)
  {
    assert !Touches(changed, registered[s]);
    assert AgreeOn(Columns(registered[s]), before, after);
    EvalFrame(lib, registered[s], types, before, after);
  }

  datatype SubOp = Subscribe(sub: SubId, p: Predicate) | Unsubscribe(sub: SubId)

  /** The registrations a history leaves. */
  ghost function RegisteredBy(ops: seq<SubOp>): map<SubId, Predicate> {
    if ops == [] then map[]
    else
      var before := RegisteredBy(ops[..|ops| - 1]);
      match ops[|ops| - 1]
      case Subscribe(sub, p) => before[sub := p]
      case Unsubscribe(sub) => before - {sub}
  }

  /**
   After any history of subscribing, re-subscribing and unsubscribing, a mutation is
   dispatched to every subscription whose result can differ between the two rows.
   */
  method DispatchAfter(lib: Library, ops: seq<SubOp>, changed: Option<seq<nat>>, types: seq<ColumnType>,
                       before: Row, after: Row)
    returns (subs: seq<SubId>)
    requires RowTyped(types, before) && RowTyped(types, after)
    requires changed.Some? ==> forall c: nat :: c < |types| && c !in changed.value ==> before[c] == after[c]
    ensures StrictlyAscending(StringLe, subs)
    ensures changed.None? ==> forall s :: s in subs <==> s in RegisteredBy(ops)
    ensures forall s :: s in subs ==> s in RegisteredBy(ops)
    ensures forall s :: s in RegisteredBy(ops) && s !in subs && Fits(RegisteredBy(ops)[s], types) ==>
        Eval(lib, RegisteredBy(ops)[s], types, before) == Eval(lib, RegisteredBy(ops)[s], types, after)
  {
    var index := new PredicateIndex();
    for i := 0 to |ops|
      invariant index.Valid() && fresh(index) && index.registered == RegisteredBy(ops[..i])
    {
      assert ops[..i + 1][..i] == ops[..i] && ops[..i + 1][i] == ops[i];
      match ops[i]
      case Subscribe(sub, p) => index.Add(sub, p);
      case Unsubscribe(sub) => index.Remove(sub);
    }
    assert ops[..|ops|] == ops;
    subs := index.Affected(changed);
    ghost var registered := RegisteredBy(ops);
    forall s | s in registered && s !in subs && Fits(registered[s], types)
      ensures Eval(lib, registered[s], types, before) == Eval(lib, registered[s], types, after)
    {
      NoFalseNegatives(lib, registered, changed.value, s, types, before, after);
    }
  }
}
