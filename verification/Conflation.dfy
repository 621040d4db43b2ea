/**
 Per-subscription delta conflation.

 A delta of a row subscription is about a record (its key) and travels under the
 store slot that holds the record; the groups of a continuous aggregate share one
 slot, and have a module of their own.  The conflator keeps at most one delta per
 slot between flushes; the question is when a consumer of the flushed deltas ends
 up with the view of a consumer of all of them.
 */
module Conflation {
  import opened Wrappers

  datatype DeltaType = Add | Update | Remove | Oof

  datatype Delta<D> = Delta(kind: DeltaType, row: nat, key: string, data: D)

  // ---- the consumer ----

  type View<D> = map<string, D>

  function Effect<D>(d: Delta<D>): Option<D> {
    if d.kind == Add || d.kind == Update then Some(d.data) else None
  }

  function Apply<D>(v: View<D>, d: Delta<D>): View<D> {
    if Effect(d).Some? then v[d.key := d.data] else v - {d.key}
  }

  function ApplyAll<D>(v: View<D>, ds: seq<Delta<D>>): View<D> {
    if ds == [] then v else Apply(ApplyAll(v, ds[..|ds| - 1]), ds[|ds| - 1])
  }

  function Lookup<D>(v: View<D>, k: string): Option<D> { if k in v then Some(v[k]) else None }

  /** What a consumer holds for one key: decided by the last delta about it. */
  function Outcome<D>(v: View<D>, ds: seq<Delta<D>>, k: string): Option<D> {
    if ds == [] then Lookup(v, k)
    else if ds[|ds| - 1].key == k then Effect(ds[|ds| - 1])
    else Outcome(v, ds[..|ds| - 1], k)
  }

  lemma {:induction false} OutcomeIsLookup<D>(v: View<D>, ds: seq<Delta<D>>, k: string)
    ensures Lookup(ApplyAll(v, ds), k) == Outcome(v, ds, k)
  {
    if ds != [] { OutcomeIsLookup(v, ds[..|ds| - 1], k); }
  }

  ghost predicate SameOutcomes<D>(v: View<D>, ds: seq<Delta<D>>, ds': seq<Delta<D>>) {
    forall k :: Outcome(v, ds, k) == Outcome(v, ds', k)
  }

  lemma SameOutcomesSameView<D>(v: View<D>, ds: seq<Delta<D>>, ds': seq<Delta<D>>)
    ensures ApplyAll(v, ds) == ApplyAll(v, ds') <==> SameOutcomes(v, ds, ds')
  {
    var a, b := ApplyAll(v, ds), ApplyAll(v, ds');
    if a == b {
      forall k ensures Outcome(v, ds, k) == Outcome(v, ds', k) {
        OutcomeIsLookup(v, ds, k);
        OutcomeIsLookup(v, ds', k);
      }
    }
    if SameOutcomes(v, ds, ds') {
      forall k ensures Lookup(a, k) == Lookup(b, k) {
        OutcomeIsLookup(v, ds, k);
        OutcomeIsLookup(v, ds', k);
      }
      assert forall k :: k in a ==> Lookup(b, k) == Some(a[k]);
      assert forall k :: k in b ==> Lookup(a, k) == Some(b[k]);
    }
  }

  // ---- the conflator ----

  function Merge<D>(prev: Delta<D>, next: Delta<D>): Option<Delta<D>> {
    if prev.kind == Add && next.kind == Remove then None
    else if prev.kind == Add && next.kind == Update then Some(next.(kind := Add))
    else Some(next)
  }

  datatype Held<D> = Held(ready: seq<Delta<D>>, pending: map<nat, Delta<D>>)

  function Submitted<D>(h: Held<D>, d: Delta<D>): Held<D> {
    if d.row !in h.pending then h.(pending := h.pending[d.row := d])
    else
      var prev := h.pending[d.row];
      if prev.kind == Remove && d.kind == Add then Held(h.ready + [prev], h.pending[d.row := d])
      else
        var merged := Merge(prev, d);
        if merged.Some? then h.(pending := h.pending[d.row := merged.value])
        else h.(pending := h.pending - {d.row})
  }

  function HeldAfter<D>(window: seq<Delta<D>>): Held<D> {
    if window == [] then Held([], map[])
    else Submitted(HeldAfter(window[..|window| - 1]), window[|window| - 1])
  }

  /** `ready` first, then the pending deltas in whatever order the map yields them. */
  ghost predicate IsDrainOf<D>(h: Held<D>, out: seq<Delta<D>>) {
    && |h.ready| <= |out| && out[..|h.ready|] == h.ready
    && IsEnumeration(h.pending, out[|h.ready|..])
  }

  ghost predicate IsEnumeration<D>(pending: map<nat, Delta<D>>, rest: seq<Delta<D>>) {
    && (forall i :: 0 <= i < |rest| ==> rest[i].row in pending && pending[rest[i].row] == rest[i])
    && (forall s :: s in pending ==> pending[s] in rest)
    && (forall i, j :: 0 <= i < j < |rest| ==> rest[i].row != rest[j].row)
  }

  class Conflator<D> {
    var ready: seq<Delta<D>>
    var pending: map<nat, Delta<D>>

    ghost function Contents(): Held<D>
      reads this
    {
      Held(ready, pending)
    }

    ghost predicate Valid()
      reads this
    {
      forall s :: s in pending ==> pending[s].row == s
    }

    constructor ()
      ensures Valid() && Contents() == Held([], map[])
    {
      ready, pending := [], map[];
    }

    method Submit(d: Delta<D>)
      requires Valid()
      modifies this
      ensures Valid() && Contents() == Submitted(old(Contents()), d)
    {
      if d.row !in pending {
        pending := pending[d.row := d];
      } else {
        var prev := pending[d.row];
        pending := pending - {d.row};
        if prev.kind == Remove && d.kind == Add {
          ready := ready + [prev];
          pending := pending[d.row := d];
          assert pending == old(pending)[d.row := d];
        } else {
          var merged := Merge(prev, d);
          if merged.Some? {
            pending := pending[merged.value.row := merged.value];
            assert pending == old(pending)[d.row := merged.value];
          }
        }
      }
    }

    method Drain() returns (out: seq<Delta<D>>)
      requires Valid()
      modifies this
      ensures Valid() && Contents() == Held([], map[])
      ensures IsDrainOf(old(Contents()), out)
    {
      out := ready;
      ready := [];
      ghost var rest: seq<Delta<D>> := [];
      while pending != map[]
        modifies this`pending
        invariant Valid() && pending.Keys <= old(pending).Keys
        invariant out == old(ready) + rest
        invariant forall s :: s in pending ==> pending[s] == old(pending)[s]
        invariant forall i :: 0 <= i < |rest| ==>
            rest[i].row in old(pending) && rest[i].row !in pending && old(pending)[rest[i].row] == rest[i]
        invariant forall s :: s in old(pending) && s !in pending ==> old(pending)[s] in rest
        invariant forall i, j :: 0 <= i < j < |rest| ==> rest[i].row != rest[j].row
        decreases pending.Keys
      {
        var s :| s in pending;
        out := out + [pending[s]];
        rest := rest + [pending[s]];
        pending := pending - {s};
      }
      assert out[|old(ready)|..] == rest;
    }
  }

  // ---- one slot at a time ----

  /** The deltas of a stream that travel under slot `s`. */
  function OnSlot<D>(ds: seq<Delta<D>>, s: nat): (r: seq<Delta<D>>)
    ensures forall i :: 0 <= i < |r| ==> r[i].row == s
  {
    if ds == [] then []
    else OnSlot(ds[..|ds| - 1], s) + if ds[|ds| - 1].row == s then [ds[|ds| - 1]] else []
  }

  datatype SlotState<D> = SlotState(ready: seq<Delta<D>>, pending: Option<Delta<D>>)

  function SlotStep<D>(st: SlotState<D>, d: Delta<D>): SlotState<D> {
    match st.pending
    case None => st.(pending := Some(d))
    case Some(prev) =>
      if prev.kind == Remove && d.kind == Add then SlotState(st.ready + [prev], Some(d))
      else st.(pending := Merge(prev, d))
  }

  function SlotRun<D>(st: SlotState<D>, ws: seq<Delta<D>>): SlotState<D> {
    if ws == [] then st else SlotStep(SlotRun(st, ws[..|ws| - 1]), ws[|ws| - 1])
  }

  function Empty<D>(): SlotState<D> { SlotState([], None) }

  ghost predicate RowsMatch<D>(h: Held<D>) { forall s :: s in h.pending ==> h.pending[s].row == s }

  /** What the conflator holds for one slot. */
  ghost function SlotOf<D>(h: Held<D>, s: nat): SlotState<D> {
    SlotState(OnSlot(h.ready, s), if s in h.pending then Some(h.pending[s]) else None)
  }

  lemma OnSlotSnoc<D>(ds: seq<Delta<D>>, d: Delta<D>, s: nat)
    ensures OnSlot(ds + [d], s) == if d.row == s then OnSlot(ds, s) + [d] else OnSlot(ds, s)
  {
    assert (ds + [d])[..|ds|] == ds;
  }

  lemma SubmittedOnSlot<D>(h: Held<D>, d: Delta<D>, s: nat)
    requires RowsMatch(h)
    ensures RowsMatch(Submitted(h, d))
    ensures SlotOf(Submitted(h, d), s) == if d.row == s then SlotStep(SlotOf(h, s), d) else SlotOf(h, s)
  {
    if d.row in h.pending { OnSlotSnoc(h.ready, h.pending[d.row], s); }
  }

  lemma SlotRunSnoc<D>(st: SlotState<D>, ws: seq<Delta<D>>, d: Delta<D>)
    ensures SlotRun(st, ws + [d]) == SlotStep(SlotRun(st, ws), d)
  {
    assert (ws + [d])[..|ws|] == ws;
  }

  lemma SlotsStayIndependent<D>(front: seq<Delta<D>>, d: Delta<D>, s: nat)
    requires RowsMatch(HeldAfter(front)) && SlotOf(HeldAfter(front), s) == SlotRun(Empty(), OnSlot(front, s))
    ensures SlotOf(Submitted(HeldAfter(front), d), s) == SlotRun(Empty(), OnSlot(front + [d], s))
  {
    SubmittedOnSlot(HeldAfter(front), d, s);
    OnSlotSnoc(front, d, s);
    SlotRunSnoc(Empty(), OnSlot(front, s), d);
  }

  /** The conflator treats slots independently. */
  lemma {:induction false} SlotsAreIndependent<D>(window: seq<Delta<D>>, s: nat)
    ensures RowsMatch(HeldAfter(window))
    ensures SlotOf(HeldAfter(window), s) == SlotRun(Empty(), OnSlot(window, s))
  {
    if window != [] {
      var front, d := window[..|window| - 1], window[|window| - 1];
      SlotsAreIndependent(front, s);
      SubmittedOnSlot(HeldAfter(front), d, s);
      SlotsStayIndependent(front, d, s);
      assert window == front + [d];
    }
  }

  // ---- legal streams: the evaluator's active set ----

  /** Who occupies the slot, from the subscription's point of view, after `ws`. */
  function Occupant<D>(o: Option<string>, ws: seq<Delta<D>>): Option<string> {
    if ws == [] then o
    else if Effect(ws[|ws| - 1]).Some? then Some(ws[|ws| - 1].key) else None
  }

  /** Add into a vacant slot; update, remove or evict its occupant. */
  predicate LegalStep<D>(o: Option<string>, d: Delta<D>) {
    if d.kind == Add then o == None else o == Some(d.key)
  }

  predicate LegalOnSlot<D>(o: Option<string>, ws: seq<Delta<D>>) {
    ws == [] ||
    (LegalOnSlot(o, ws[..|ws| - 1]) && LegalStep(Occupant(o, ws[..|ws| - 1]), ws[|ws| - 1]))
  }

  lemma {:induction false} LegalSuffix<D>(o: Option<string>, a: seq<Delta<D>>, b: seq<Delta<D>>)
    requires LegalOnSlot(o, a + b)
    ensures LegalOnSlot(o, a) && LegalOnSlot(Occupant(o, a), b)
  {
    if b == [] {
      assert a + b == a;
    } else {
      assert (a + b)[..|a + b| - 1] == a + b[..|b| - 1];
      LegalSuffix(o, a, b[..|b| - 1]);
      if |b| == 1 { assert a + b[..0] == a; }
    }
  }

  lemma {:induction false} SlotRunAppend<D>(st: SlotState<D>, a: seq<Delta<D>>, b: seq<Delta<D>>)
    ensures SlotRun(st, a + b) == SlotRun(SlotRun(st, a), b)
  {
    if b == [] {
      assert a + b == a;
    } else {
      SlotRunAppend(st, a, b[..|b| - 1]);
      assert (a + b)[..|a + b| - 1] == a + b[..|b| - 1];
    }
  }

  /** The pending delta of a slot that was vacant when its deltas began. */
  function PendingFor<D>(last: Delta<D>): Option<Delta<D>> {
    match last.kind
    case Remove => None
    case Oof => Some(last)
    case Add => Some(last)
    case Update => Some(last.(kind := Add))
  }

  /** From a vacant slot, only the last delta matters; a removal held before is made ready. */
  lemma {:induction false} VacantRun<D>(st: SlotState<D>, ws: seq<Delta<D>>)
    requires st.pending.Some? ==> Effect(st.pending.value).None?
    requires LegalOnSlot(None, ws) && ws != []
    ensures SlotRun(st, ws) ==
            SlotState(st.ready + if st.pending.Some? && st.pending.value.kind == Remove then [st.pending.value] else [],
                      PendingFor(ws[|ws| - 1]))
  {
    var front := ws[..|ws| - 1];
    if front != [] { VacantRun(st, front); }
  }

  /** While the first occupant stays, its updates coalesce into the last one. */
  lemma {:induction false} UpdatesRun<D>(us: seq<Delta<D>>)
    requires forall i :: 0 <= i < |us| ==> us[i].kind == Update
    ensures SlotRun(Empty(), us) == SlotState([], if us == [] then None else Some(us[|us| - 1]))
  {
    if us != [] { UpdatesRun(us[..|us| - 1]); }
  }

  /** The number of deltas before the occupant's first departure, or all of them. */
  function Stay<D>(ws: seq<Delta<D>>): (n: nat)
    ensures n <= |ws| && (forall i :: 0 <= i < n ==> ws[i].kind == Update)
    ensures n < |ws| ==> ws[n].kind != Update
  {
    if ws == [] then 0
    else
      var n := Stay(ws[..|ws| - 1]);
      if n < |ws| - 1 || ws[|ws| - 1].kind != Update then n else n + 1
  }

  /**
   The eviction of the occupant `k` is overwritten by a later Add to its slot, and
   the slot's last delta says nothing about `k` either.
   */
  predicate Abandoned<D>(k: string, ws: seq<Delta<D>>) {
    var n := Stay(ws);
    && n < |ws| - 1 && ws[n].kind == Oof
    && (ws[|ws| - 1].kind == Remove || ws[|ws| - 1].key != k)
  }

  function HeldList<D>(st: SlotState<D>): seq<Delta<D>> {
    st.ready + if st.pending.Some? then [st.pending.value] else []
  }

  /** Among all deltas, only those of the current occupant leave a record behind. */
  lemma {:induction false} RawOutcome<D>(v: View<D>, o: Option<string>, ws: seq<Delta<D>>, k: string)
    requires LegalOnSlot(o, ws) && ws != [] && (k in v ==> o == Some(k))
    ensures Outcome(v, ws, k) == if Occupant(o, ws) == Some(k) then Some(ws[|ws| - 1].data) else None
  {
    var front, last := ws[..|ws| - 1], ws[|ws| - 1];
    if last.key != k && front != [] { RawOutcome(v, o, front, k); }
  }

  lemma HeldOutcome<D>(v: View<D>, ready: seq<Delta<D>>, pending: Option<Delta<D>>, k: string)
    requires |ready| <= 1
    ensures Outcome(v, HeldList(SlotState(ready, pending)), k) ==
            if pending.Some? && pending.value.key == k then Effect(pending.value)
            else if ready != [] && ready[0].key == k then Effect(ready[0])
            else Lookup(v, k)
  {
    var ds := HeldList(SlotState(ready, pending));
    assert Outcome(v, ready, k) == if ready != [] && ready[0].key == k then Effect(ready[0]) else Lookup(v, k) by {
      if ready != [] { assert ready[..|ready| - 1] == []; }
    }
    if pending.Some? { assert ds[..|ds| - 1] == ready; } else { assert ds == ready; }
  }

  /** How a slot with first occupant `k0` is left, by the manner of its first departure. */
  lemma OccupiedRun<D>(k0: string, ws: seq<Delta<D>>)
    requires LegalOnSlot(Some(k0), ws)
    ensures var n, st := Stay(ws), SlotRun(Empty(), ws);
            && (n < |ws| ==> ws[n].key == k0 && Effect(ws[n]).None?)
            && (n == |ws| ==> st == SlotState([], if ws == [] then None else Some(ws[|ws| - 1])))
            && (n == |ws| - 1 ==> st == SlotState([], Some(ws[n])))
            && (n < |ws| - 1 ==>
                  st == SlotState(if ws[n].kind == Remove then [ws[n]] else [], PendingFor(ws[|ws| - 1])))
  {
    var n := Stay(ws);
    if n == |ws| {
      UpdatesRun(ws);
    } else {
      FirstDeparture(k0, ws, n);
    }
  }

  /** Up to and including its first departure, the departure alone is held. */
  lemma DepartureRun<D>(k0: string, us: seq<Delta<D>>, dep: Delta<D>)
    requires LegalOnSlot(Some(k0), us + [dep])
    requires dep.kind != Update && forall i :: 0 <= i < |us| ==> us[i].kind == Update
    ensures dep.key == k0 && Effect(dep).None? && Occupant(Some(k0), us + [dep]) == None
    ensures SlotRun(Empty(), us + [dep]) == SlotState([], Some(dep))
  {
    var head := us + [dep];
    assert head[..|head| - 1] == us;
    StayedKey(k0, us);
    UpdatesRun(us);
  }

  /** The departure, then whatever the slot went through afterwards. */
  lemma DepartureThenRest<D>(k0: string, us: seq<Delta<D>>, dep: Delta<D>, head: seq<Delta<D>>, rest: seq<Delta<D>>,
                             ws: seq<Delta<D>>)
    requires LegalOnSlot(Some(k0), ws) && head == us + [dep] && ws == head + rest
    requires dep.kind != Update && forall i :: 0 <= i < |us| ==> us[i].kind == Update
    ensures dep.key == k0 && Effect(dep).None?
    ensures SlotRun(Empty(), ws) ==
            if rest == [] then SlotState([], Some(dep))
            else SlotState(if dep.kind == Remove then [dep] else [], PendingFor(rest[|rest| - 1]))
  {
    Split(Some(k0), ws, head, rest);
    DepartureRun(k0, us, dep);
    DepartedRun(dep, rest);
  }

  lemma CutAt<D>(ws: seq<Delta<D>>, n: nat) returns (us: seq<Delta<D>>, head: seq<Delta<D>>, rest: seq<Delta<D>>)
    requires n < |ws|
    ensures us == ws[..n] && head == us + [ws[n]] && ws == head + rest
    ensures |rest| == |ws| - n - 1 && (rest != [] ==> rest[|rest| - 1] == ws[|ws| - 1])
  {
    us, rest := ws[..n], ws[n + 1..];
    head := us + [ws[n]];
  }

  lemma FirstDeparture<D>(k0: string, ws: seq<Delta<D>>, n: nat)
    requires LegalOnSlot(Some(k0), ws) && n < |ws|
    requires ws[n].kind != Update && forall i :: 0 <= i < n ==> ws[i].kind == Update
    ensures ws[n].key == k0 && Effect(ws[n]).None?
    ensures SlotRun(Empty(), ws) ==
            if n == |ws| - 1 then SlotState([], Some(ws[n]))
            else SlotState(if ws[n].kind == Remove then [ws[n]] else [], PendingFor(ws[|ws| - 1]))
  {
    var us, head, rest := CutAt(ws, n);
    DepartureThenRest(k0, us, ws[n], head, rest, ws);
  }

  lemma Split<D>(o: Option<string>, ws: seq<Delta<D>>, head: seq<Delta<D>>, rest: seq<Delta<D>>)
    requires LegalOnSlot(o, ws) && ws == head + rest
    ensures LegalOnSlot(o, head) && LegalOnSlot(Occupant(o, head), rest)
    ensures SlotRun(Empty(), ws) == SlotRun(SlotRun(Empty(), head), rest)
  {
    LegalSuffix(o, head, rest);
    SlotRunAppend(Empty(), head, rest);
  }

  lemma DepartedRun<D>(dep: Delta<D>, rest: seq<Delta<D>>)
    requires Effect(dep).None? && LegalOnSlot(None, rest)
    ensures SlotRun(SlotState([], Some(dep)), rest) ==
            if rest == [] then SlotState([], Some(dep))
            else SlotState(if dep.kind == Remove then [dep] else [], PendingFor(rest[|rest| - 1]))
  {
    if rest != [] { VacantRun(SlotState([], Some(dep)), rest); }
  }

  lemma {:induction false} StayedKey<D>(k0: string, us: seq<Delta<D>>)
    requires LegalOnSlot(Some(k0), us) && forall i :: 0 <= i < |us| ==> us[i].kind == Update
    ensures Occupant(Some(k0), us) == Some(k0)
  {
    if us != [] { StayedKey(k0, us[..|us| - 1]); }
  }

  /** On one slot, conflation changes the outcome for a key exactly if that key is abandoned. */
  lemma SlotOutcome<D>(v: View<D>, o: Option<string>, ws: seq<Delta<D>>, k: string)
    requires LegalOnSlot(o, ws) && (k in v <==> o == Some(k))
    ensures Outcome(v, HeldList(SlotRun(Empty(), ws)), k) == Outcome(v, ws, k) <==>
            !(o == Some(k) && Abandoned(k, ws))
  {
    if ws != [] {
      RawOutcome(v, o, ws, k);
      var st := SlotRun(Empty(), ws);
      if o.None? {
        VacantRun(Empty(), ws);
      } else {
        OccupiedRun(o.value, ws);
        if Stay(ws) == |ws| { StayedKey(o.value, ws); }
      }
      HeldOutcome(v, st.ready, st.pending, k);
    }
  }

  // ---- whole windows ----

  /** The occupant of each slot, as far as the subscription knows. */
  type Occupancy = nat -> Option<string>

  ghost predicate Agrees<D>(occ: Occupancy, v: View<D>) {
    && (forall k :: k in v <==> exists s: nat :: occ(s) == Some(k))
    && (forall s: nat, t: nat :: occ(s).Some? && occ(s) == occ(t) ==> s == t)
  }

  ghost predicate Legal<D>(occ: Occupancy, window: seq<Delta<D>>) {
    forall s: nat :: LegalOnSlot(occ(s), OnSlot(window, s))
  }

  /** Within the window a record stays on one slot, the one it already occupied if any. */
  ghost predicate KeysStay<D>(occ: Occupancy, window: seq<Delta<D>>) {
    && (forall i, j :: 0 <= i < |window| && 0 <= j < |window| && window[i].key == window[j].key ==>
          window[i].row == window[j].row)
    && (forall i, s: nat :: 0 <= i < |window| && occ(s) == Some(window[i].key) ==> s == window[i].row)
  }

  ghost predicate Home<D>(occ: Occupancy, window: seq<Delta<D>>, k: string, s: nat) {
    && (forall i :: 0 <= i < |window| && window[i].key == k ==> window[i].row == s)
    && (forall t: nat :: occ(t) == Some(k) ==> t == s)
  }

  lemma HomeExists<D>(occ: Occupancy, v: View<D>, window: seq<Delta<D>>, k: string) returns (s: nat)
    requires KeysStay(occ, window) && Agrees(occ, v)
    ensures Home(occ, window, k, s)
    ensures k in v <==> occ(s) == Some(k)
  {
    if i :| 0 <= i < |window| && window[i].key == k {
      s := window[i].row;
    } else if t: nat :| occ(t) == Some(k) {
      s := t;
    } else {
      s := 0;
    }
  }

  /** A key's outcome depends only on the deltas of its slot. */
  lemma {:induction false} OutcomeOnSlot<D>(v: View<D>, ds: seq<Delta<D>>, k: string, s: nat)
    requires forall i :: 0 <= i < |ds| && ds[i].key == k ==> ds[i].row == s
    ensures Outcome(v, ds, k) == Outcome(v, OnSlot(ds, s), k)
  {
    if ds != [] {
      var front, d := ds[..|ds| - 1], ds[|ds| - 1];
      OutcomeOnSlot(v, front, k, s);
      assert ds == front + [d];
      OnSlotSnoc(front, d, s);
      OutcomeSnoc(v, OnSlot(front, s), d, k);
    }
  }

  lemma OutcomeSnoc<D>(v: View<D>, ds: seq<Delta<D>>, d: Delta<D>, k: string)
    ensures Outcome(v, ds + [d], k) == if d.key == k then Effect(d) else Outcome(v, ds, k)
  {
    assert (ds + [d])[..|ds|] == ds;
  }

  lemma Regroup<T>(a: seq<T>, b: seq<T>, c: seq<T>)
    ensures a + (b + c) == (a + b) + c
  {
  }

  lemma OnSlotAppendSnoc<D>(a: seq<Delta<D>>, front: seq<Delta<D>>, d: Delta<D>, s: nat)
    requires OnSlot(a + front, s) == OnSlot(a, s) + OnSlot(front, s)
    ensures OnSlot(a + (front + [d]), s) == OnSlot(a, s) + OnSlot(front + [d], s)
  {
    Regroup(a, front, [d]);
    OnSlotSnoc(a + front, d, s);
    OnSlotSnoc(front, d, s);
    Regroup(OnSlot(a, s), OnSlot(front, s), [d]);
  }

  lemma {:induction false} OnSlotAppend<D>(a: seq<Delta<D>>, b: seq<Delta<D>>, s: nat)
    ensures OnSlot(a + b, s) == OnSlot(a, s) + OnSlot(b, s)
  {
    if b == [] {
      assert a + b == a;
    } else {
      var front, d := b[..|b| - 1], b[|b| - 1];
      assert b == front + [d];
      OnSlotAppend(a, front, s);
      OnSlotAppendSnoc(a, front, d, s);
    }
  }

  lemma {:induction false} OnSlotDistinct<D>(ds: seq<Delta<D>>, s: nat)
    requires forall i, j :: 0 <= i < j < |ds| ==> ds[i].row != ds[j].row
    ensures forall i :: 0 <= i < |ds| && ds[i].row == s ==> OnSlot(ds, s) == [ds[i]]
    ensures (forall i :: 0 <= i < |ds| ==> ds[i].row != s) ==> OnSlot(ds, s) == []
  {
    if ds != [] {
      var front, d := ds[..|ds| - 1], ds[|ds| - 1];
      OnSlotDistinct(front, s);
      OnSlotSnoc(front, d, s);
      assert ds == front + [d];
      assert forall i :: 0 <= i < |front| ==> front[i] == ds[i];
    }
  }

  lemma EnumerationOnSlot<D>(pending: map<nat, Delta<D>>, rest: seq<Delta<D>>, s: nat)
    requires IsEnumeration(pending, rest) && forall t :: t in pending ==> pending[t].row == t
    ensures OnSlot(rest, s) == if s in pending then [pending[s]] else []
  {
    OnSlotDistinct(rest, s);
    if s in pending {
      var i :| 0 <= i < |rest| && rest[i] == pending[s];
      assert OnSlot(rest, s) == [rest[i]];
    } else {
      assert forall i :: 0 <= i < |rest| ==> rest[i].row != s;
    }
  }

  /** Restricted to one slot, every drain order looks the same. */
  lemma DrainOnSlot<D>(h: Held<D>, out: seq<Delta<D>>, s: nat)
    requires RowsMatch(h) && IsDrainOf(h, out)
    ensures OnSlot(out, s) == HeldList(SlotOf(h, s))
  {
    var rest := out[|h.ready|..];
    assert out == h.ready + rest;
    OnSlotAppend(h.ready, rest, s);
    EnumerationOnSlot(h.pending, rest, s);
  }

  /** The conflator invents no record: what it holds names slots and keys of the window. */
  ghost predicate FromWindow<D>(window: seq<Delta<D>>, d: Delta<D>) {
    exists i :: 0 <= i < |window| && window[i].row == d.row && window[i].key == d.key
  }

  ghost predicate AllFrom<D>(window: seq<Delta<D>>, h: Held<D>) {
    && (forall i :: 0 <= i < |h.ready| ==> FromWindow(window, h.ready[i]))
    && (forall s :: s in h.pending ==> FromWindow(window, h.pending[s]))
  }

  lemma SubmittedFrom<D>(window: seq<Delta<D>>, h: Held<D>, d: Delta<D>)
    requires AllFrom(window, h) && FromWindow(window, d)
    ensures AllFrom(window, Submitted(h, d))
  {
    assert FromWindow(window, d.(kind := Add));
  }

  lemma {:induction false} HeldFromWindow<D>(window: seq<Delta<D>>)
    ensures AllFrom(window, HeldAfter(window))
  {
    if window != [] {
      var front, d := window[..|window| - 1], window[|window| - 1];
      HeldFromWindow(front);
      forall x | FromWindow(front, x) ensures FromWindow(window, x) {
        var i :| 0 <= i < |front| && front[i].row == x.row && front[i].key == x.key;
        assert window[i] == front[i];
      }
      assert FromWindow(window, d) by { assert window[|window| - 1] == d; }
      SubmittedFrom(window, HeldAfter(front), d);
    }
  }

  lemma DrainedFromWindow<D>(window: seq<Delta<D>>, out: seq<Delta<D>>)
    requires IsDrainOf(HeldAfter(window), out)
    ensures forall i :: 0 <= i < |out| ==> FromWindow(window, out[i])
  {
    var h := HeldAfter(window);
    HeldFromWindow(window);
    forall i | 0 <= i < |out| ensures FromWindow(window, out[i]) {
      if i < |h.ready| {
        assert out[i] == out[..|h.ready|][i];
      } else {
        assert out[i] == out[|h.ready|..][i - |h.ready|];
      }
    }
  }

  lemma DrainedHome<D>(occ: Occupancy, window: seq<Delta<D>>, out: seq<Delta<D>>, k: string, s: nat)
    requires Home(occ, window, k, s) && forall i :: 0 <= i < |out| ==> FromWindow(window, out[i])
    ensures forall i :: 0 <= i < |out| && out[i].key == k ==> out[i].row == s
  {
  }

  ghost predicate NothingAbandoned<D>(occ: Occupancy, window: seq<Delta<D>>) {
    forall s: nat :: occ(s).Some? ==> !Abandoned(occ(s).value, OnSlot(window, s))
  }

  lemma KeyOutcome<D>(occ: Occupancy, v: View<D>, window: seq<Delta<D>>, out: seq<Delta<D>>, k: string) returns (s: nat)
    requires Agrees(occ, v) && Legal(occ, window) && KeysStay(occ, window) && IsDrainOf(HeldAfter(window), out)
    ensures occ(s) == Some(k) <==> k in v
    ensures Outcome(v, out, k) == Outcome(v, window, k) <==>
            !(occ(s) == Some(k) && Abandoned(k, OnSlot(window, s)))
  {
    s := HomeExists(occ, v, window, k);
    SlotsAreIndependent(window, s);
    OutcomeOnSlot(v, window, k, s);
    DrainedFromWindow(window, out);
    assert forall i :: 0 <= i < |out| && out[i].key == k ==> out[i].row == s by { DrainedHome(occ, window, out, k, s); }
    OutcomeOnSlot(v, out, k, s);
    DrainOnSlot(HeldAfter(window), out, s);
    SlotOutcome(v, occ(s), OnSlot(window, s), k);
  }

  /**
   For a legal window in which records keep their slots, and for every drain order,
   the flushed deltas give the view of the raw ones exactly if no record is abandoned.
   */
  lemma StationaryExact<D>(occ: Occupancy, v: View<D>, window: seq<Delta<D>>, out: seq<Delta<D>>)
    requires Agrees(occ, v) && Legal(occ, window) && KeysStay(occ, window) && IsDrainOf(HeldAfter(window), out)
    ensures ApplyAll(v, out) == ApplyAll(v, window) <==> NothingAbandoned(occ, window)
  {
    SameOutcomesSameView(v, out, window);
    if NothingAbandoned(occ, window) {
      forall k ensures Outcome(v, out, k) == Outcome(v, window, k) {
        var s := KeyOutcome(occ, v, window, out, k);
      }
    } else {
      var t: nat :| occ(t).Some? && Abandoned(occ(t).value, OnSlot(window, t));
      var k := occ(t).value;
      var s := KeyOutcome(occ, v, window, out, k);
      assert k in v;
      assert s == t;
      assert Outcome(v, out, k) != Outcome(v, window, k);
    }
  }

  // ---- records that change slot ----

  /** The last delta of a stream about a record. */
  function LastAbout<D>(ds: seq<Delta<D>>, k: string): (d: Option<Delta<D>>)
    ensures d.Some? ==> d.value in ds && d.value.key == k
    ensures d.None? ==> forall i :: 0 <= i < |ds| ==> ds[i].key != k
  {
    if ds == [] then None
    else if ds[|ds| - 1].key == k then Some(ds[|ds| - 1])
    else LastAbout(ds[..|ds| - 1], k)
  }

  lemma {:induction false} OutcomeIsLast<D>(v: View<D>, ds: seq<Delta<D>>, k: string)
    ensures Outcome(v, ds, k) == if LastAbout(ds, k).Some? then Effect(LastAbout(ds, k).value) else Lookup(v, k)
  {
    if ds != [] && ds[|ds| - 1].key != k { OutcomeIsLast(v, ds[..|ds| - 1], k); }
  }

  lemma {:induction false} LastAboutAppend<D>(a: seq<Delta<D>>, b: seq<Delta<D>>, k: string)
    ensures LastAbout(a + b, k) == if LastAbout(b, k).Some? then LastAbout(b, k) else LastAbout(a, k)
  {
    if b == [] {
      assert a + b == a;
    } else {
      assert (a + b)[..|a + b| - 1] == a + b[..|b| - 1];
      if b[|b| - 1].key != k { LastAboutAppend(a, b[..|b| - 1], k); }
    }
  }

  /** What the conflator still holds of a slot's deltas, given who occupied the slot first. */
  function Survivor<D>(o: Option<string>, ws: seq<Delta<D>>): Option<Delta<D>> {
    if ws == [] then None
    else if o.None? || Stay(ws) < |ws| - 1 then PendingFor(ws[|ws| - 1])
    else Some(ws[|ws| - 1])
  }

  /** The removal of the first occupant, if the slot was used again. */
  function Released<D>(o: Option<string>, ws: seq<Delta<D>>): Option<Delta<D>> {
    if o.Some? && Stay(ws) < |ws| - 1 && ws[Stay(ws)].kind == Remove then Some(ws[Stay(ws)]) else None
  }

  function Listed<T>(x: Option<T>): seq<T> { if x.Some? then [x.value] else [] }

  lemma SlotHeld<D>(o: Option<string>, ws: seq<Delta<D>>)
    requires LegalOnSlot(o, ws)
    ensures SlotRun(Empty(), ws) == SlotState(Listed(Released(o, ws)), Survivor(o, ws))
  {
    if o.Some? {
      OccupiedRun(o.value, ws);
    } else if ws != [] {
      VacantRun(Empty(), ws);
    }
  }

  /** The survivor of each slot of a window, and its released removal. */
  ghost function Survivors<D>(occ: Occupancy, window: seq<Delta<D>>): nat -> Option<Delta<D>> {
    (s: nat) => Survivor(occ(s), OnSlot(window, s))
  }

  ghost function Releases<D>(occ: Occupancy, window: seq<Delta<D>>): nat -> Option<Delta<D>> {
    (s: nat) => Released(occ(s), OnSlot(window, s))
  }

  /** What the conflator holds, slot by slot. */
  ghost predicate HeldBy<D>(h: Held<D>, surv: nat -> Option<Delta<D>>, rel: nat -> Option<Delta<D>>) {
    && (forall s: nat :: surv(s) == if s in h.pending then Some(h.pending[s]) else None)
    && (forall s: nat :: rel(s).Some? ==> rel(s).value in h.ready)
    && (forall i :: 0 <= i < |h.ready| ==> rel(h.ready[i].row) == Some(h.ready[i]) && h.ready[i].kind == Remove)
  }

  lemma {:induction false} OnSlotMembers<D>(ds: seq<Delta<D>>, d: Delta<D>)
    ensures d in ds <==> d in OnSlot(ds, d.row)
  {
    if ds != [] {
      var front, last := ds[..|ds| - 1], ds[|ds| - 1];
      OnSlotMembers(front, d);
      OnSlotSnoc(front, last, d.row);
      assert ds == front + [last];
    }
  }

  lemma HeldOnSlot<D>(occ: Occupancy, window: seq<Delta<D>>, s: nat)
    requires Legal(occ, window)
    ensures var h := HeldAfter(window);
            && RowsMatch(h) && OnSlot(h.ready, s) == Listed(Releases(occ, window)(s))
            && Survivors(occ, window)(s) == if s in h.pending then Some(h.pending[s]) else None
  {
    SlotsAreIndependent(window, s);
    SlotHeld(occ(s), OnSlot(window, s));
  }

  /** What holds of each slot holds of the whole. */
  lemma HeldSlotwise<D>(h: Held<D>, surv: nat -> Option<Delta<D>>, rel: nat -> Option<Delta<D>>)
    requires forall s: nat :: OnSlot(h.ready, s) == Listed(rel(s))
    requires forall s: nat :: rel(s).Some? ==> rel(s).value.kind == Remove
    requires forall s: nat :: surv(s) == if s in h.pending then Some(h.pending[s]) else None
    ensures HeldBy(h, surv, rel)
  {
    forall s: nat | rel(s).Some? ensures rel(s).value in h.ready {
      var d := rel(s).value;
      assert OnSlot(h.ready, s) == [d];
      assert OnSlot(h.ready, s)[0].row == s;
      OnSlotMembers(h.ready, d);
    }
    forall i | 0 <= i < |h.ready| ensures rel(h.ready[i].row) == Some(h.ready[i]) && h.ready[i].kind == Remove {
      OnSlotMembers(h.ready, h.ready[i]);
      assert OnSlot(h.ready, h.ready[i].row) == Listed(rel(h.ready[i].row));
    }
  }

  /** What a legal window leaves in the conflator. */
  lemma HeldExactly<D>(occ: Occupancy, window: seq<Delta<D>>)
    requires Legal(occ, window)
    ensures RowsMatch(HeldAfter(window)) && HeldBy(HeldAfter(window), Survivors(occ, window), Releases(occ, window))
  {
    var h, surv, rel := HeldAfter(window), Survivors(occ, window), Releases(occ, window);
    forall s: nat
      ensures OnSlot(h.ready, s) == Listed(rel(s)) && (rel(s).Some? ==> rel(s).value.kind == Remove)
      ensures surv(s) == if s in h.pending then Some(h.pending[s]) else None
    {
      HeldOnSlot(occ, window, s);
    }
    HeldOnSlot(occ, window, 0);
    HeldSlotwise(h, surv, rel);
  }

  ghost predicate About<D>(f: nat -> Option<Delta<D>>, k: string, s: nat) { f(s).Some? && f(s).value.key == k }

  ghost predicate Mentions<D>(f: nat -> Option<Delta<D>>, k: string) { exists s: nat :: About(f, k, s) }

  /** Every survivor about the record says what its last delta said. */
  ghost predicate SurvivorsRight<D>(surv: nat -> Option<Delta<D>>, last: Option<Delta<D>>, k: string) {
    forall s: nat :: About(surv, k, s) ==> last.Some? && Effect(surv(s).value) == Effect(last.value)
  }

  /** The window speaks of the record, and nothing that is flushed does. */
  ghost predicate Forgotten<D>(surv: nat -> Option<Delta<D>>, rel: nat -> Option<Delta<D>>, last: Option<Delta<D>>,
                               k: string)
  {
    last.Some? && !Mentions(surv, k) && !Mentions(rel, k)
  }

  /** No survivor contradicts its record's last delta, and a record held at the start is not forgotten. */
  ghost predicate KeyPreserved<D>(occ: Occupancy, window: seq<Delta<D>>, k: string) {
    var surv, rel, last := Survivors(occ, window), Releases(occ, window), LastAbout(window, k);
    SurvivorsRight(surv, last, k) && (Forgotten(surv, rel, last, k) ==> forall s: nat :: occ(s) != Some(k))
  }

  ghost predicate Preserves<D>(occ: Occupancy, window: seq<Delta<D>>) {
    forall k: string :: KeyPreserved(occ, window, k)
  }

  /** A delta that leaves its record in place is the last on its slot. */
  lemma {:induction false} PresentIsLast<D>(occ: Occupancy, window: seq<Delta<D>>, k: string)
    requires Legal(occ, window) && LastAbout(window, k).Some? && Effect(LastAbout(window, k).value).Some?
    ensures var d := LastAbout(window, k).value;
            var ws := OnSlot(window, d.row);
            ws != [] && ws[|ws| - 1] == d
  {
    var front, x := window[..|window| - 1], window[|window| - 1];
    var d := LastAbout(window, k).value;
    assert window == front + [x];
    OnSlotSnoc(front, x, d.row);
    if x.key != k {
      LegalFront(occ, front, x);
      PresentIsLast(occ, front, k);
      if x.row == d.row { LegalLast(occ(d.row), OnSlot(front, d.row), x); }
    }
  }

  lemma LegalLast<D>(o: Option<string>, ws: seq<Delta<D>>, x: Delta<D>)
    requires LegalOnSlot(o, ws + [x])
    ensures LegalOnSlot(o, ws) && LegalStep(Occupant(o, ws), x)
  {
    assert (ws + [x])[..|ws|] == ws;
  }

  lemma LegalFront<D>(occ: Occupancy, front: seq<Delta<D>>, x: Delta<D>)
    requires Legal(occ, front + [x])
    ensures Legal(occ, front)
  {
    forall s: nat ensures LegalOnSlot(occ(s), OnSlot(front, s)) {
      OnSlotSnoc(front, x, s);
      if x.row == s { LegalLast(occ(s), OnSlot(front, s), x); }
    }
  }

  /** A record whose last delta leaves it in place has a survivor. */
  lemma PresentSurvives<D>(occ: Occupancy, window: seq<Delta<D>>, k: string)
    requires Legal(occ, window) && LastAbout(window, k).Some? && Effect(LastAbout(window, k).value).Some?
    ensures Mentions(Survivors(occ, window), k)
  {
    PresentIsLast(occ, window, k);
    assert About(Survivors(occ, window), k, LastAbout(window, k).value.row);
  }

  /** What a drain tells a consumer about a record, up to the order of the pending deltas. */
  lemma DrainTells<D>(h: Held<D>, surv: nat -> Option<Delta<D>>, rel: nat -> Option<Delta<D>>, rest: seq<Delta<D>>,
                      k: string)
    requires HeldBy(h, surv, rel) && IsEnumeration(h.pending, rest)
    ensures var d := LastAbout(h.ready + rest, k);
            if Mentions(surv, k) then d.Some? && About(surv, k, d.value.row) && surv(d.value.row) == d
            else if Mentions(rel, k) then d.Some? && Effect(d.value).None?
            else d.None?
  {
    LastAboutAppend(h.ready, rest, k);
    if Mentions(surv, k) {
      var s: nat :| About(surv, k, s);
      assert h.pending[s] in rest;
    } else {
      forall i | 0 <= i < |rest| ensures rest[i].key != k {
        assert !About(surv, k, rest[i].row);
      }
      if Mentions(rel, k) {
        var s: nat :| About(rel, k, s);
        assert rel(s).value in h.ready;
      } else {
        forall i | 0 <= i < |h.ready| ensures h.ready[i].key != k {
          assert !About(rel, k, h.ready[i].row);
        }
      }
    }
  }

  lemma DrainOutcome<D>(occ: Occupancy, v: View<D>, window: seq<Delta<D>>, out: seq<Delta<D>>, k: string)
    requires Legal(occ, window) && IsDrainOf(HeldAfter(window), out)
    ensures var surv, rel, d := Survivors(occ, window), Releases(occ, window), LastAbout(out, k);
            if Mentions(surv, k) then d.Some? && About(surv, k, d.value.row) && surv(d.value.row) == d
            else if Mentions(rel, k) then d.Some? && Effect(d.value).None?
            else d.None?
    ensures Outcome(v, out, k) == if LastAbout(out, k).Some? then Effect(LastAbout(out, k).value) else Lookup(v, k)
  {
    var h := HeldAfter(window);
    var rest := out[|h.ready|..];
    assert out == h.ready + rest;
    HeldExactly(occ, window);
    DrainTells(h, Survivors(occ, window), Releases(occ, window), rest, k);
    OutcomeIsLast(v, out, k);
  }

  /** Where the window is silent about a record, so is what the conflator holds. */
  lemma HeldOfSlot<D>(o: Option<string>, ws: seq<Delta<D>>)
    ensures Survivor(o, ws).Some? ==> ws != [] && Survivor(o, ws).value.key == ws[|ws| - 1].key
    ensures Released(o, ws).Some? ==> Released(o, ws).value in ws
  {
  }

  lemma SilentKey<D>(occ: Occupancy, window: seq<Delta<D>>, k: string)
    requires LastAbout(window, k).None?
    ensures !Mentions(Survivors(occ, window), k) && !Mentions(Releases(occ, window), k)
  {
    forall s: nat ensures !About(Survivors(occ, window), k, s) && !About(Releases(occ, window), k, s) {
      forall i | 0 <= i < |OnSlot(window, s)| ensures OnSlot(window, s)[i].key != k {
        OnSlotMembers(window, OnSlot(window, s)[i]);
      }
      HeldOfSlot(occ(s), OnSlot(window, s));
    }
  }

  lemma KeyKept<D>(occ: Occupancy, v: View<D>, window: seq<Delta<D>>, out: seq<Delta<D>>, k: string)
    requires Agrees(occ, v) && Legal(occ, window) && IsDrainOf(HeldAfter(window), out) && KeyPreserved(occ, window, k)
    ensures Outcome(v, out, k) == Outcome(v, window, k)
  {
    OutcomeIsLast(v, window, k);
    DrainOutcome(occ, v, window, out, k);
    if LastAbout(window, k).None? {
      SilentKey(occ, window, k);
    } else if Effect(LastAbout(window, k).value).Some? {
      PresentSurvives(occ, window, k);
    }
  }

  // ---- drain orders ----

  lemma EnumerationExists<D>(pending: map<nat, Delta<D>>) returns (rest: seq<Delta<D>>)
    requires forall s :: s in pending ==> pending[s].row == s
    ensures IsEnumeration(pending, rest)
    decreases pending.Keys
  {
    if s :| s in pending {
      rest := EnumerationEndingWith(pending, s);
    } else {
      rest := [];
    }
  }

  /** Some order has any given slot's delta last. */
  lemma EnumerationEndingWith<D>(pending: map<nat, Delta<D>>, s: nat) returns (rest: seq<Delta<D>>)
    requires s in pending && forall t :: t in pending ==> pending[t].row == t
    ensures IsEnumeration(pending, rest) && rest != [] && rest[|rest| - 1] == pending[s]
    decreases pending.Keys, 0
  {
    var others := pending - {s};
    assert others.Keys < pending.Keys;
    var front := EnumerationExists(others);
    rest := front + [pending[s]];
    forall t | t in pending ensures pending[t] in rest {
      if t != s { assert others[t] in front; }
    }
  }

  /** The flushed deltas give the view of the raw ones, whatever the drain order. */
  ghost predicate EveryDrainRight<D(!new)>(v: View<D>, window: seq<Delta<D>>) {
    forall out :: IsDrainOf(HeldAfter(window), out) ==> ApplyAll(v, out) == ApplyAll(v, window)
  }

  lemma DrainOf<D>(h: Held<D>, rest: seq<Delta<D>>)
    requires IsEnumeration(h.pending, rest)
    ensures IsDrainOf(h, h.ready + rest)
  {
    assert (h.ready + rest)[..|h.ready|] == h.ready && (h.ready + rest)[|h.ready|..] == rest;
  }

  /** A survivor that contradicts its record's last delta spoils the drain that has it last. */
  lemma SurvivorMustAgree<D(!new)>(occ: Occupancy, v: View<D>, window: seq<Delta<D>>, k: string, s: nat)
    requires Legal(occ, window) && EveryDrainRight(v, window) && About(Survivors(occ, window), k, s)
    ensures LastAbout(window, k).Some? && Effect(Survivors(occ, window)(s).value) == Effect(LastAbout(window, k).value)
  {
    var h := HeldAfter(window);
    HeldExactly(occ, window);
    var rest := EnumerationEndingWith(h.pending, s);
    DrainOf(h, rest);
    LastAboutAppend(h.ready, rest, k);
    DrainAgrees(v, window, h.ready + rest, k);
    if LastAbout(window, k).None? { SilentKey(occ, window, k); }
  }

  lemma DrainAgrees<D(!new)>(v: View<D>, window: seq<Delta<D>>, out: seq<Delta<D>>, k: string)
    requires EveryDrainRight(v, window) && IsDrainOf(HeldAfter(window), out)
    ensures (if LastAbout(out, k).Some? then Effect(LastAbout(out, k).value) else Lookup(v, k)) ==
            (if LastAbout(window, k).Some? then Effect(LastAbout(window, k).value) else Lookup(v, k))
  {
    SameOutcomesSameView(v, out, window);
    OutcomeIsLast(v, out, k);
    OutcomeIsLast(v, window, k);
    assert Outcome(v, out, k) == Outcome(v, window, k);
  }

  lemma ForgottenWasAbsent<D(!new)>(occ: Occupancy, v: View<D>, window: seq<Delta<D>>, k: string)
    requires Agrees(occ, v) && Legal(occ, window) && EveryDrainRight(v, window)
    requires Forgotten(Survivors(occ, window), Releases(occ, window), LastAbout(window, k), k)
    ensures forall s: nat :: occ(s) != Some(k)
  {
    var h := HeldAfter(window);
    HeldExactly(occ, window);
    var rest := EnumerationExists(h.pending);
    DrainOf(h, rest);
    DrainTells(h, Survivors(occ, window), Releases(occ, window), rest, k);
    DrainAgrees(v, window, h.ready + rest, k);
    if Effect(LastAbout(window, k).value).Some? { PresentSurvives(occ, window, k); }
    assert k !in v;
  }

  /**
   For every legal window, whether or not records change slot: all drain orders
   give the view of the raw deltas exactly if no survivor contradicts its record's
   last delta and no record held at the start is forgotten.
   */
  lemma ConflationExact<D(!new)>(occ: Occupancy, v: View<D>, window: seq<Delta<D>>)
    requires Agrees(occ, v) && Legal(occ, window)
    ensures EveryDrainRight(v, window) <==> Preserves(occ, window)
  {
    if Preserves(occ, window) {
      forall out | IsDrainOf(HeldAfter(window), out) ensures ApplyAll(v, out) == ApplyAll(v, window) {
        forall k ensures Outcome(v, out, k) == Outcome(v, window, k) { KeyKept(occ, v, window, out, k); }
        SameOutcomesSameView(v, out, window);
      }
    }
    if EveryDrainRight(v, window) {
      forall k: string ensures KeyPreserved(occ, window, k) {
        forall s: nat | About(Survivors(occ, window), k, s)
          ensures LastAbout(window, k).Some?
                  && Effect(Survivors(occ, window)(s).value) == Effect(LastAbout(window, k).value)
        {
          SurvivorMustAgree(occ, v, window, k, s);
        }
        if Forgotten(Survivors(occ, window), Releases(occ, window), LastAbout(window, k), k) {
          ForgottenWasAbsent(occ, v, window, k);
        }
      }
    }
  }

  /** If records keep their slots, that is to say that no record is abandoned. */
  lemma PreservesIfStationary<D(!new)>(occ: Occupancy, v: View<D>, window: seq<Delta<D>>)
    requires Agrees(occ, v) && Legal(occ, window) && KeysStay(occ, window)
    ensures Preserves(occ, window) <==> NothingAbandoned(occ, window)
  {
    ConflationExact(occ, v, window);
    HeldExactly(occ, window);
    var rest := EnumerationExists(HeldAfter(window).pending);
    DrainOf(HeldAfter(window), rest);
    forall out | IsDrainOf(HeldAfter(window), out)
      ensures ApplyAll(v, out) == ApplyAll(v, window) <==> NothingAbandoned(occ, window)
    {
      StationaryExact(occ, v, window, out);
    }
  }

  // ---- many windows ----

  ghost function After<D>(occ: Occupancy, window: seq<Delta<D>>): Occupancy {
    (s: nat) => Occupant(occ(s), OnSlot(window, s))
  }

  /** No record is on two slots. */
  ghost predicate OneSlotEach(occ: Occupancy) { forall s: nat, t: nat :: occ(s).Some? && occ(s) == occ(t) ==> s == t }

  /** At no time is a record on two slots. */
  ghost predicate Single<D>(occ: Occupancy, window: seq<Delta<D>>) {
    forall i :: 0 <= i <= |window| ==> OneSlotEach(After(occ, window[..i]))
  }

  lemma AfterSnoc<D>(occ: Occupancy, front: seq<Delta<D>>, d: Delta<D>, s: nat)
    ensures After(occ, front + [d])(s) ==
            if d.row == s then (if Effect(d).Some? then Some(d.key) else None) else After(occ, front)(s)
  {
    OnSlotSnoc(front, d, s);
    assert d.row == s ==> (OnSlot(front, s) + [d])[|OnSlot(front, s)|] == d;
  }

  lemma AgreesStep<D>(occ: Occupancy, v: View<D>, occ': Occupancy, d: Delta<D>)
    requires Agrees(occ, v) && LegalStep(occ(d.row), d) && OneSlotEach(occ')
    requires forall s: nat :: occ'(s) == if d.row == s then (if Effect(d).Some? then Some(d.key) else None) else occ(s)
    ensures Agrees(occ', Apply(v, d))
  {
    var v' := Apply(v, d);
    forall k ensures k in v' <==> exists s: nat :: occ'(s) == Some(k) {
      if k == d.key {
        if Effect(d).Some? { assert occ'(d.row) == Some(k); }
      } else {
        if k in v {
          var s: nat :| occ(s) == Some(k);
          assert s != d.row;
          assert occ'(s) == Some(k);
        }
      }
    }
  }

  /** Occupancy and view stay in step through a window. */
  lemma {:induction false} AgreesAfter<D>(occ: Occupancy, v: View<D>, window: seq<Delta<D>>)
    requires Agrees(occ, v) && Legal(occ, window) && Single(occ, window)
    ensures Agrees(After(occ, window), ApplyAll(v, window))
  {
    if window == [] {
      assert forall s: nat :: After(occ, window)(s) == occ(s);
    } else {
      var front, d := window[..|window| - 1], window[|window| - 1];
      assert window == front + [d];
      SingleFront(occ, window);
      LegalFront(occ, front, d);
      AgreesAfter(occ, v, front);
      AgreesSnoc(occ, v, front, d);
    }
  }

  lemma SingleFront<D>(occ: Occupancy, window: seq<Delta<D>>)
    requires Single(occ, window) && window != []
    ensures Single(occ, window[..|window| - 1]) && OneSlotEach(After(occ, window))
  {
    var front := window[..|window| - 1];
    assert window[..|window|] == window;
    forall i | 0 <= i <= |front| ensures OneSlotEach(After(occ, front[..i])) { assert front[..i] == window[..i]; }
  }

  lemma AgreesSnoc<D>(occ: Occupancy, v: View<D>, front: seq<Delta<D>>, d: Delta<D>)
    requires Agrees(After(occ, front), ApplyAll(v, front)) && Legal(occ, front + [d])
             && OneSlotEach(After(occ, front + [d]))
    ensures Agrees(After(occ, front + [d]), ApplyAll(v, front + [d]))
  {
    var window := front + [d];
    assert window[..|window| - 1] == front;
    OnSlotSnoc(front, d, d.row);
    LegalLast(occ(d.row), OnSlot(front, d.row), d);
    forall s: nat ensures After(occ, window)(s) ==
        if d.row == s then (if Effect(d).Some? then Some(d.key) else None) else After(occ, front)(s) {
      AfterSnoc(occ, front, d, s);
    }
    AgreesStep(After(occ, front), ApplyAll(v, front), After(occ, window), d);
  }

  /** Every window is legal for the occupancy the previous ones left. */
  ghost predicate LegalWindows<D>(occ: Occupancy, windows: seq<seq<Delta<D>>>)
    decreases |windows|
  {
    windows == []
      || (Legal(occ, windows[0]) && Single(occ, windows[0]) && LegalWindows(After(occ, windows[0]), windows[1..]))
  }

  /** Conflation preserves every window. */
  ghost predicate CalmWindows<D>(occ: Occupancy, windows: seq<seq<Delta<D>>>)
    decreases |windows|
  {
    windows == [] || (Preserves(occ, windows[0]) && CalmWindows(After(occ, windows[0]), windows[1..]))
  }

  function Concat<T>(windows: seq<seq<T>>): seq<T> {
    if windows == [] then [] else Concat(windows[..|windows| - 1]) + windows[|windows| - 1]
  }

  lemma {:induction false} ApplyAllAppend<D>(v: View<D>, a: seq<Delta<D>>, b: seq<Delta<D>>)
    ensures ApplyAll(v, a + b) == ApplyAll(ApplyAll(v, a), b)
  {
    if b == [] {
      assert a + b == a;
    } else {
      ApplyAllAppend(v, a, b[..|b| - 1]);
      assert (a + b)[..|a + b| - 1] == a + b[..|b| - 1];
    }
  }

  /** A consumer whose slots are known, facing windows that conflation does not distort. */
  ghost predicate Undisturbed<D>(occ: Occupancy, v: View<D>, windows: seq<seq<Delta<D>>>) {
    Agrees(occ, v) && LegalWindows(occ, windows) && CalmWindows(occ, windows)
  }

  /** One window through the conflator. */
  method Flush<D>(conflator: Conflator<D>, window: seq<Delta<D>>) returns (out: seq<Delta<D>>)
    requires conflator.Valid() && conflator.Contents() == Held([], map[])
    modifies conflator
    ensures conflator.Valid() && conflator.Contents() == Held([], map[])
    ensures IsDrainOf(HeldAfter(window), out)
  {
    for j := 0 to |window|
      invariant conflator.Valid() && conflator.Contents() == HeldAfter(window[..j])
    {
      conflator.Submit(window[j]);
      assert window[..j + 1][..j] == window[..j] && window[..j + 1][j] == window[j];
    }
    assert window[..|window|] == window;
    out := conflator.Drain();
  }

  lemma FlushExact<D(!new)>(occ: Occupancy, v: View<D>, windows: seq<seq<Delta<D>>>, out: seq<Delta<D>>)
    requires windows != [] && Undisturbed(occ, v, windows) && IsDrainOf(HeldAfter(windows[0]), out)
    ensures ApplyAll(v, out) == ApplyAll(v, windows[0])
    ensures Undisturbed(After(occ, windows[0]), ApplyAll(v, out), windows[1..])
  {
    ConflationExact(occ, v, windows[0]);
    AgreesAfter(occ, v, windows[0]);
  }

  /** The same where the window is one of several: the view is still that of the raw stream. */
  lemma RelayStep<D(!new)>(occ: Occupancy, v0: View<D>, v: View<D>, windows: seq<seq<Delta<D>>>, i: nat,
                           out: seq<Delta<D>>)
    requires i < |windows| && Undisturbed(occ, v, windows[i..]) && v == ApplyAll(v0, Concat(windows[..i]))
    requires IsDrainOf(HeldAfter(windows[i]), out)
    ensures Undisturbed(After(occ, windows[i]), ApplyAll(v, out), windows[i + 1..])
    ensures ApplyAll(v, out) == ApplyAll(v0, Concat(windows[..i + 1]))
  {
    assert windows[i..][1..] == windows[i + 1..] && windows[..i + 1][..i] == windows[..i];
    FlushExact(occ, v, windows[i..], out);
    ApplyAllAppend(v0, Concat(windows[..i]), windows[i]);
  }

  /**
   A consumer fed through the conflator, flushed after every window, ends with the
   view of a consumer of the raw stream unless some window disturbs it.
   */
  method Relay<D(!new)>(v0: View<D>, windows: seq<seq<Delta<D>>>, ghost occ0: Occupancy) returns (v: View<D>)
    ensures Undisturbed(occ0, v0, windows) ==> v == ApplyAll(v0, Concat(windows))
  {
    var conflator := new Conflator();
    v := v0;
    ghost var occ := occ0;
    assert windows[0..] == windows;
    for i := 0 to |windows|
      invariant fresh(conflator) && conflator.Valid() && conflator.Contents() == Held([], map[])
      invariant Undisturbed(occ0, v0, windows) ==>
                  Undisturbed(occ, v, windows[i..]) && v == ApplyAll(v0, Concat(windows[..i]))
    {
      var out := Flush(conflator, windows[i]);
      if Undisturbed(occ0, v0, windows) { RelayStep(occ, v0, v, windows, i, out); }
      v := ApplyAll(v, out);
      occ := After(occ, windows[i]);
    }
    assert windows[..|windows|] == windows;
  }

  // ---- what goes wrong outside these conditions ----

  /** Evict, re-admit, delete: the cancelled Add and Remove take the eviction with them. */
  lemma EvictAddRemoveIsLost(k: string, x: string)
    ensures var window := [Delta(Oof, 0, k, x), Delta(Add, 0, k, x), Delta(Remove, 0, k, x)];
            && HeldAfter(window) == Held([], map[])
            && ApplyAll(map[k := x], window) == map[] && ApplyAll(map[k := x], []) == map[k := x]
  {
    var a, b, c := Delta(Oof, 0, k, x), Delta(Add, 0, k, x), Delta(Remove, 0, k, x);
    assert [a, b, c][..2] == [a, b] && [a, b][..1] == [a] && [a][..0] == [];
    assert HeldAfter([a]) == Held([], map[0 := a]);
    assert HeldAfter([a, b]) == Held([], map[0 := b]);
    assert ApplyAll(map[k := x], [a]) == map[];
    assert ApplyAll(map[k := x], [a, b]) == map[k := x];
  }

  /** A record that moves to another slot within a window can be lost to the drain order. */
  lemma MovingKeyCanBeLost(k: string, x: string)
    ensures var gone, back := Delta(Remove, 0, k, x), Delta(Add, 1, k, x);
            && IsDrainOf(HeldAfter([gone, back]), [back, gone])
            && ApplyAll(map[k := x], [gone, back]) == map[k := x]
            && ApplyAll(map[k := x], [back, gone]) == map[]
  {
    var gone, back := Delta(Remove, 0, k, x), Delta(Add, 1, k, x);
    assert [gone, back][..1] == [gone] && [back, gone][..1] == [back] && [gone][..0] == [] && [back][..0] == [];
    assert HeldAfter([gone]) == Held([], map[0 := gone]);
    assert HeldAfter([gone, back]) == Held([], map[0 := gone, 1 := back]);
    var rest := [back, gone];
    assert rest[0] == back && rest[1] == gone;
    assert ApplyAll(map[k := x], [gone]) == map[];
    assert ApplyAll(map[k := x], [back]) == map[k := x];
  }
}
