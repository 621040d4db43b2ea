/**
 A topic with a continuous aggregate on it: publishes and deletes, with the slots
 they reuse, drive the subscription, and a client follows its deltas.
 */
module LiveTopics {
  import opened Wrappers
  import opened Values
  import opened SecIndex
  import opened Accumulators
  import opened Aggregation
  import opened LiveAggregates
  import opened Topics

  ghost function TableOf(topic: Topic): Store
    reads topic
  {
    Store(topic.types, topic.rows)
  }

  /** The subscription is in step with the live rows of the topic. */
  ghost predicate InStep(topic: Topic, sub: AggregateSubscription)
    reads topic, topic.index, sub
  {
    topic.Valid() && sub.Valid(TableOf(topic), LiveRows(topic.keyToRow))
  }

  function KindOf(op: TopicOp): MutationKind { if op.PublishOp? then Upsert else Delete }

  /** At most one row is mutated, and it joins or leaves the live rows. */
  ghost predicate Step(before: Store, live: set<nat>, store: Store, live': set<nat>, row: Option<nat>,
                       kind: MutationKind)
  {
    match row
    case None => store == before && live' == live
    case Some(r) => r < |store.rows| && Mutated(before, store, r) && LiveAfter(live, r, kind) == live'
  }

  lemma TouchIsStep(rules: Rules, t: Contents, op: TopicOp)
    requires Orderly(rules.types, t) && Keyed(rules, op)
    ensures var t' := Performed(rules, t, op);
            Step(Store(rules.types, t.rows), LiveRows(t.keyToRow), Store(rules.types, t'.rows), LiveRows(t'.keyToRow),
                 Touched(rules, t, op), KindOf(op))
  {
    OneRowTouched(rules, t, op);
  }

  method Notify(sub: AggregateSubscription, row: Option<nat>, kind: MutationKind, store: Store,
                ghost before: Store, ghost live: set<nat>, ghost live': set<nat>)
    returns (deltas: seq<GroupDelta>)
    requires sub.Valid(before, live) && store.Valid() && Step(before, live, store, live', row, kind)
    modifies sub
    ensures sub.Valid(store, live')
    ensures Carries(old(sub.lastEmitted), deltas, CanonOf(sub.rt, GroupNames(sub.q, sub.names)), sub.lastEmitted)
  {
    deltas := [];
    if row.Some? { deltas := sub.Evaluate(row.value, kind, store, before, live); }
  }

  /** One operation reaches the subscription as an event on the row it touched. */
  method FollowOp(topic: Topic, sub: AggregateSubscription, op: TopicOp) returns (deltas: seq<GroupDelta>)
    requires InStep(topic, sub) && Proper(topic.Rules(), op)
    modifies topic, topic.index, sub
    ensures InStep(topic, sub) && topic.State() == Performed(topic.Rules(), old(topic.State()), op)
    ensures Carries(old(sub.lastEmitted), deltas, CanonOf(sub.rt, GroupNames(sub.q, sub.names)), sub.lastEmitted)
  {
    ghost var before, live := TableOf(topic), LiveRows(topic.keyToRow);
    TouchIsStep(topic.Rules(), topic.State(), op);
    var row := ApplyOp(topic, op);
    deltas := Notify(sub, row, KindOf(op), Store(topic.types, topic.rows), before, live, LiveRows(topic.keyToRow));
  }

  method FollowOps(topic: Topic, sub: AggregateSubscription, ops: seq<TopicOp>) returns (deltas: seq<GroupDelta>)
    requires InStep(topic, sub) && AllProper(topic.Rules(), ops)
    modifies topic, topic.index, sub
    ensures InStep(topic, sub) && topic.State() == ContentsFrom(topic.Rules(), old(topic.State()), ops)
    ensures Carries(old(sub.lastEmitted), deltas, CanonOf(sub.rt, GroupNames(sub.q, sub.names)), sub.lastEmitted)
    decreases |ops|
  {
    deltas := [];
    if ops != [] {
      deltas := FollowOps(topic, sub, ops[..|ops| - 1]);
      ghost var view := sub.lastEmitted;
      var more := FollowOp(topic, sub, ops[|ops| - 1]);
      CarriesAppend(old(sub.lastEmitted), deltas, more, CanonOf(sub.rt, GroupNames(sub.q, sub.names)), view,
                    sub.lastEmitted);
      deltas := deltas + more;
    }
  }

  /**
   Subscribe to a topic, then publish and delete at will: the client's snapshot is
   the aggregate of the topic's records then, and with every delta applied it is
   the aggregate of the records the operations leave.
   */
  method RunLive(topic: Topic, rt: Runtime, q: AggQuery, names: seq<string>, ops: seq<TopicOp>)
    returns (snapshot: View, deltas: seq<GroupDelta>)
    requires topic.Valid() && AllProper(topic.Rules(), ops)
    requires Agreeable(rt, q, names, TableOf(topic), Some(LiveRows(topic.keyToRow))) && q.limit.None?
    requires NoneLost(rt.lib, q.predicate_, TableOf(topic), Some(topic.index.View()), Some(LiveRows(topic.keyToRow)))
    modifies topic, topic.index
    ensures topic.Valid() && topic.Records() == SowAfter(topic.Rules(), old(topic.Records()), ops)
    ensures old(IsFullView(rt, q, names, TableOf(topic), LiveRows(topic.keyToRow), snapshot))
    ensures Agreeable(rt, q, names, TableOf(topic), Some(LiveRows(topic.keyToRow))) ==>
              IsFullView(rt, q, names, TableOf(topic), LiveRows(topic.keyToRow),
                         AppliedAll(snapshot, deltas, CanonOf(rt, GroupNames(q, names))))
  {
    ghost var live := LiveRows(topic.keyToRow);
    DescribesIsInSync(topic.index.View(), TableOf(topic));
    var index := Index(topic.index.indexedCols, topic.index.byCol, topic.index.rangeByCol);
    var liveRows := set k | k in topic.keyToRow :: topic.keyToRow[k];
    var sub := new AggregateSubscription(rt, q, names, Store(topic.types, topic.rows), Some(index), liveRows);
    snapshot := sub.lastEmitted;
    ViewIsFullResult(rt, q, names, TableOf(topic), Some(live), sub.groupRows, sub.rowGroup, snapshot);
    KeyedRunIsMap(topic.Rules(), topic.State(), ops);
    deltas := FollowOps(topic, sub, ops);
    if Agreeable(rt, q, names, TableOf(topic), Some(LiveRows(topic.keyToRow))) {
      ViewIsFullResult(rt, q, names, TableOf(topic), Some(LiveRows(topic.keyToRow)), sub.groupRows, sub.rowGroup,
                       sub.lastEmitted);
    }
  }
}
