/**
 Continuous aggregates through the conflator.  The deltas of all groups of a
 subscription carry row 0, so within a flush window they coalesce with each other,
 whichever group they are about.
 */
module GroupConflation {
  import opened Wrappers
  import opened Values
  import opened Bitmaps
  import opened SecIndex
  import opened Planner
  import opened Accumulators
  import opened Aggregation
  import opened Conflation
  import L = LiveAggregates

  // ---- any deltas on one slot ----

  /** What is pending was merged into an Add: one came, and only updates since. */
  predicate AddPending<D>(ws: seq<Delta<D>>) {
    ws != [] && (ws[|ws| - 1].kind == Add || (ws[|ws| - 1].kind == Update && AddPending(ws[..|ws| - 1])))
  }

  /** The last delta, as an Add if one is pending; nothing if it removes what was added. */
  function PendingOf<D>(ws: seq<Delta<D>>): Option<Delta<D>> {
    if ws == [] || (ws[|ws| - 1].kind == Remove && AddPending(ws[..|ws| - 1])) then None
    else if AddPending(ws) then Some(ws[|ws| - 1].(kind := Add))
    else Some(ws[|ws| - 1])
  }

  /** The removals that were pending when an Add came. */
  function ReadyOf<D>(ws: seq<Delta<D>>): (ready: seq<Delta<D>>)
    ensures forall i :: 0 <= i < |ready| ==> ready[i].kind == Remove
  {
    if ws == [] then []
    else
      var prev := PendingOf(ws[..|ws| - 1]);
      ReadyOf(ws[..|ws| - 1]) +
      if ws[|ws| - 1].kind == Add && prev.Some? && prev.value.kind == Remove then [prev.value] else []
  }

  lemma {:induction false} AnyRun<D>(ws: seq<Delta<D>>)
    ensures SlotRun(Empty(), ws) == SlotState(ReadyOf(ws), PendingOf(ws))
  {
    if ws != [] {
      var front, last := ws[..|ws| - 1], ws[|ws| - 1];
      AnyRun(front);
      var prev := PendingOf(front);
      assert prev.Some? ==> (prev.value.kind == Add <==> AddPending(front));
      assert ReadyOf(front) + [] == ReadyOf(front);
      if prev.None? { assert !AddPending(front); }
    }
  }

  ghost predicate OneSlot<D>(ds: seq<Delta<D>>, s: nat) { forall i :: 0 <= i < |ds| ==> ds[i].row == s }

  lemma {:induction false} AllOnSlot<D>(ds: seq<Delta<D>>, s: nat)
    requires OneSlot(ds, s)
    ensures OnSlot(ds, s) == ds
  {
    if ds != [] {
      AllOnSlot(ds[..|ds| - 1], s);
      assert ds == ds[..|ds| - 1] + [ds[|ds| - 1]];
    }
  }

  /** There is one drain order. */
  lemma SharedDrain<D>(window: seq<Delta<D>>, s: nat, out: seq<Delta<D>>)
    requires OneSlot(window, s) && IsDrainOf(HeldAfter(window), out)
    ensures out == ReadyOf(window) + Listed(PendingOf(window))
  {
    var h := HeldAfter(window);
    SlotsAreIndependent(window, s);
    AllOnSlot(window, s);
    AnyRun(window);
    DrainOnSlot(h, out, s);
    DrainedFromWindow(window, out);
    forall i | 0 <= i < |out| ensures out[i].row == s {
      assert FromWindow(window, out[i]);
    }
    AllOnSlot(out, s);
  }

  /**
   The flush tells the truth about a record: the window is silent about it, or what
   is pending is about it, or its last delta says what a consumer is left with,
   nothing after a released removal and otherwise what it had.
   */
  predicate Told<D(==)>(v: View<D>, window: seq<Delta<D>>, k: string) {
    var last, p := LastAbout(window, k), PendingOf(window);
    || last.None? || (p.Some? && p.value.key == k)
    || Effect(last.value) == if LastAbout(ReadyOf(window), k).Some? then None else Lookup(v, k)
  }

  lemma SharedOutcome<D>(v: View<D>, window: seq<Delta<D>>, out: seq<Delta<D>>, k: string)
    requires out == ReadyOf(window) + Listed(PendingOf(window))
    ensures Outcome(v, out, k) == Outcome(v, window, k) <==> Told(v, window, k)
  {
    var p, ready := PendingOf(window), ReadyOf(window);
    OutcomeIsLast(v, out, k);
    OutcomeIsLast(v, window, k);
    LastAboutAppend(ready, Listed(p), k);
    if LastAbout(window, k).None? { SilentReady(window, k); }
    assert LastAbout(Listed(p), k) == if p.Some? && p.value.key == k then p else None;
  }

  lemma {:induction false} SilentReady<D>(window: seq<Delta<D>>, k: string)
    requires LastAbout(window, k).None?
    ensures LastAbout(ReadyOf(window), k).None? && (PendingOf(window).Some? ==> PendingOf(window).value.key != k)
  {
    if window != [] {
      var front := window[..|window| - 1];
      SilentReady(front, k);
      var prev := PendingOf(front);
      var comesBack := window[|window| - 1].kind == Add && prev.Some? && prev.value.kind == Remove;
      var more := if comesBack then [prev.value] else [];
      LastAboutAppend(ReadyOf(front), more, k);
    }
  }

  /** On a shared slot the flush gives the view of the raw deltas exactly if it tells the truth about every record. */
  lemma SharedExact<D>(v: View<D>, window: seq<Delta<D>>, s: nat, out: seq<Delta<D>>)
    requires OneSlot(window, s) && IsDrainOf(HeldAfter(window), out)
    ensures ApplyAll(v, out) == ApplyAll(v, window) <==> forall k: string :: Told(v, window, k)
  {
    SharedDrain(window, s, out);
    SameOutcomesSameView(v, out, window);
    forall k: string ensures Outcome(v, out, k) == Outcome(v, window, k) <==> Told(v, window, k) {
      SharedOutcome(v, window, out, k);
    }
  }

  // ---- groups ----

  /** A group delta as the conflator sees it. */
  function Wire(d: L.GroupDelta, canonOf: RowMap -> string): Delta<RowMap> {
    Delta(match d case Add(_) => DeltaType.Add case Update(_) => DeltaType.Update case Remove(_) => DeltaType.Remove,
          0, canonOf(d.body), d.body)
  }

  function WireAll(ds: seq<L.GroupDelta>, canonOf: RowMap -> string): (wire: seq<Delta<RowMap>>)
    ensures |wire| == |ds| && OneSlot(wire, 0)
  {
    seq(|ds|, i requires 0 <= i < |ds| => Wire(ds[i], canonOf))
  }

  lemma {:induction false} AppliedIsApplyAll(view: L.View, ds: seq<L.GroupDelta>, canonOf: RowMap -> string)
    ensures L.AppliedAll(view, ds, canonOf) == ApplyAll(view, WireAll(ds, canonOf))
  {
    if ds != [] {
      var front := ds[..|ds| - 1];
      AppliedIsApplyAll(view, front, canonOf);
      assert WireAll(ds, canonOf)[..|ds| - 1] == WireAll(front, canonOf);
    }
  }

  /** The flushed group deltas give a client the view of all of them exactly if every group is told. */
  lemma GroupFlushExact(view: L.View, ds: seq<L.GroupDelta>, canonOf: RowMap -> string, out: seq<Delta<RowMap>>)
    requires IsDrainOf(HeldAfter(WireAll(ds, canonOf)), out)
    ensures ApplyAll(view, out) == L.AppliedAll(view, ds, canonOf) <==>
            forall k: string :: Told(view, WireAll(ds, canonOf), k)
  {
    AppliedIsApplyAll(view, ds, canonOf);
    SharedExact(view, WireAll(ds, canonOf), 0, out);
  }

  /** Deltas about one group, each fitting what the ones before it leave, are legal for a slot of its own. */
  lemma {:induction false} OneGroupIsLegal(view: L.View, ds: seq<L.GroupDelta>, canonOf: RowMap -> string, k: string)
    requires L.FitsAll(view, ds, canonOf) && forall i :: 0 <= i < |ds| ==> canonOf(ds[i].body) == k
    ensures var o, wire := if k in view then Some(k) else None, WireAll(ds, canonOf);
            LegalOnSlot(o, wire) && (k in L.AppliedAll(view, ds, canonOf) <==> Occupant(o, wire) == Some(k))
            && (Occupant(o, wire).Some? ==> Occupant(o, wire) == Some(k))
  {
    if ds != [] {
      var front := ds[..|ds| - 1];
      OneGroupIsLegal(view, front, canonOf, k);
      assert WireAll(ds, canonOf)[..|ds| - 1] == WireAll(front, canonOf);
    }
  }

  /** So a window of the evaluator's deltas about one group is always flushed rightly. */
  lemma OneGroupIsTold(view: L.View, ds: seq<L.GroupDelta>, canonOf: RowMap -> string, k: string)
    requires L.FitsAll(view, ds, canonOf) && forall i :: 0 <= i < |ds| ==> canonOf(ds[i].body) == k
    ensures forall k': string :: Told(view, WireAll(ds, canonOf), k')
  {
    var o, window := if k in view then Some(k) else None, WireAll(ds, canonOf);
    OneGroupIsLegal(view, ds, canonOf, k);
    AnyRun(window);
    NeverAbandoned(window, k);
    SlotOutcome(view, o, window, k);
    SharedOutcome(view, window, ReadyOf(window) + Listed(PendingOf(window)), k);
    assert HeldList(SlotRun(Empty(), window)) == ReadyOf(window) + Listed(PendingOf(window));
    forall k': string ensures Told(view, window, k') {
      if k' != k { assert LastAbout(window, k').None?; }
    }
  }

  /** Groups are added, updated and removed, never evicted. */
  lemma NeverAbandoned(window: seq<Delta<RowMap>>, k: string)
    requires forall i :: 0 <= i < |window| ==> window[i].kind != Oof
    ensures !Abandoned(k, window)
  {
  }

  // ---- a subscription behind the conflator ----

  /** Events in flush windows, each window continuing where the one before it left the table. */
  ghost predicate AreTraces(store: Store, windows: seq<seq<L.Event>>)
    decreases |windows|
  {
    windows == []
      || (L.IsTrace(store.types, store, windows[0]) && AreTraces(L.StoreAfter(store, windows[0]), windows[1..]))
  }

  ghost function StoreAfterAll(store: Store, windows: seq<seq<L.Event>>): Store
    decreases |windows|
  {
    if windows == [] then store else StoreAfterAll(L.StoreAfter(store, windows[0]), windows[1..])
  }

  ghost function LiveAfterAll(live: RowSet, windows: seq<seq<L.Event>>): RowSet
    decreases |windows|
  {
    if windows == [] then live else LiveAfterAll(L.LiveAfterAll(live, windows[0]), windows[1..])
  }

  /** Every window tells the truth to a client that was told it so far. */
  ghost predicate AllTold(view: L.View, raws: seq<seq<L.GroupDelta>>, canonOf: RowMap -> string)
    decreases |raws|
  {
    raws == [] ||
    (&& (forall k: string :: Told(view, WireAll(raws[0], canonOf), k))
     && AllTold(L.AppliedAll(view, raws[0], canonOf), raws[1..], canonOf))
  }

  /** One window of mutations, evaluated and flushed. */
  method FlushWindow(sub: L.AggregateSubscription, conflator: Conflator<RowMap>, ghost store: Store, ghost live: RowSet,
                     events: seq<L.Event>, client: L.View) returns (raw: seq<L.GroupDelta>, client': L.View)
    requires sub.Valid(store, live) && L.IsTrace(store.types, store, events)
    requires conflator.Valid() && conflator.Contents() == Held([], map[])
    modifies sub, conflator
    ensures sub.Valid(L.StoreAfter(store, events), L.LiveAfterAll(live, events))
    ensures conflator.Valid() && conflator.Contents() == Held([], map[])
    ensures L.Carries(old(sub.lastEmitted), raw, L.CanonOf(sub.rt, GroupNames(sub.q, sub.names)), sub.lastEmitted)
    ensures client == old(sub.lastEmitted) ==>
              (client' == sub.lastEmitted <==>
               forall k: string :: Told(client, WireAll(raw, L.CanonOf(sub.rt, GroupNames(sub.q, sub.names))), k))
  {
    raw := L.Follow(sub, store, live, events);
    var canonOf := L.CanonOf(sub.rt, GroupNames(sub.q, sub.names));
    var out := Flush(conflator, WireAll(raw, canonOf));
    GroupFlushExact(client, raw, canonOf, out);
    client' := ApplyAll(client, out);
  }

  method FlushWindows(sub: L.AggregateSubscription, conflator: Conflator<RowMap>, ghost store: Store,
                      ghost live: RowSet, windows: seq<seq<L.Event>>, client: L.View)
    returns (raws: seq<seq<L.GroupDelta>>, client': L.View)
    requires sub.Valid(store, live) && AreTraces(store, windows)
    requires conflator.Valid() && conflator.Contents() == Held([], map[])
    modifies sub, conflator
    ensures sub.Valid(StoreAfterAll(store, windows), LiveAfterAll(live, windows))
    ensures client == old(sub.lastEmitted) && AllTold(client, raws, L.CanonOf(sub.rt, GroupNames(sub.q, sub.names))) ==>
              client' == sub.lastEmitted
    decreases |windows|
  {
    raws, client' := [], client;
    if windows != [] {
      var raw, rest;
      raw, client' := FlushWindow(sub, conflator, store, live, windows[0], client);
      rest, client' := FlushWindows(sub, conflator, L.StoreAfter(store, windows[0]), L.LiveAfterAll(live, windows[0]),
                                    windows[1..], client');
      raws := [raw] + rest;
      assert raws[1..] == rest;
    }
  }

  /**
   From subscription through any windows of mutations, flushed one by one: the client
   of the flushed deltas has the keyed result of a full execution on the final table,
   if every window tells it the truth.
   */
  method RunGroups(rt: Runtime, q: AggQuery, names: seq<string>, store: Store, index: Option<Index>, live: RowSet,
                   windows: seq<seq<L.Event>>)
    returns (snapshot: L.View, raws: seq<seq<L.GroupDelta>>, client: L.View)
    requires L.Agreeable(rt, q, names, store, Some(live)) && q.limit.None?
    requires index.Some? ==> InSync(index.value, store)
    requires NoneLost(rt.lib, q.predicate_, store, index, Some(live))
    requires AreTraces(store, windows)
    requires L.Agreeable(rt, q, names, StoreAfterAll(store, windows), Some(LiveAfterAll(live, windows)))
    ensures L.IsFullView(rt, q, names, store, live, snapshot)
    ensures AllTold(snapshot, raws, L.CanonOf(rt, GroupNames(q, names))) ==>
              L.IsFullView(rt, q, names, StoreAfterAll(store, windows), LiveAfterAll(live, windows), client)
  {
    var sub := new L.AggregateSubscription(rt, q, names, store, index, live);
    var conflator := new Conflator();
    snapshot, client := sub.lastEmitted, sub.lastEmitted;
    L.ViewIsFullResult(rt, q, names, store, Some(live), sub.groupRows, sub.rowGroup, snapshot);
    raws, client := FlushWindows(sub, conflator, store, live, windows, client);
    L.ViewIsFullResult(rt, q, names, StoreAfterAll(store, windows), Some(LiveAfterAll(live, windows)),
                       sub.groupRows, sub.rowGroup, sub.lastEmitted);
  }

  /** Two groups updated in one window: the first update is lost. */
  lemma SecondGroupOverwritesFirst(a: RowMap, a': RowMap, b: RowMap, b': RowMap)
    requires a != a'
    ensures var view: L.View := map["a" := a, "b" := b];
            var window := [Delta(DeltaType.Update, 0, "a", a'), Delta(DeltaType.Update, 0, "b", b')];
            PendingOf(window) == Some(window[1]) && ReadyOf(window) == [] && !Told(view, window, "a")
  {
    var x, y := Delta(DeltaType.Update, 0, "a", a'), Delta(DeltaType.Update, 0, "b", b');
    assert [x, y][..1] == [x] && [x][..0] == [];
    assert !AddPending([x]) && PendingOf([x]) == Some(x) && ReadyOf([x]) == [];
    assert LastAbout([x], "a") == Some(x);
  }
}
