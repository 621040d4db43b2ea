/**
 The client-side publish buffer and its replay after a reconnect.

 Every publish is recorded before it is sent and dropped when the server
 acknowledges it.  Whether a remote call succeeds is an input here.  The ordered
 map of pending entries is the sequence of its entries, ascending by id.
 */
module PublishStores {

  datatype Payload = Payload(topic: string, data: string)

  datatype Entry = Entry(id: nat, payload: Payload)

  ghost predicate Ordered(entries: seq<Entry>) {
    forall i, j :: 0 <= i < j < |entries| ==> entries[i].id < entries[j].id
  }

  ghost predicate Below(entries: seq<Entry>, bound: nat) {
    forall i :: 0 <= i < |entries| ==> entries[i].id < bound
  }

  function Payloads(entries: seq<Entry>): seq<Payload> {
    seq(|entries|, i requires 0 <= i < |entries| => entries[i].payload)
  }

  /** Drop the entry with the given id, if there is one. */
  function Without(entries: seq<Entry>, id: nat): seq<Entry> {
    if entries == [] then []
    else (if entries[0].id == id then [] else [entries[0]]) + Without(entries[1..], id)
  }

  lemma {:induction false} WithoutKeepsOrder(entries: seq<Entry>, id: nat, low: int, high: nat)
    requires Ordered(entries) && Below(entries, high) && forall i :: 0 <= i < |entries| ==> low < entries[i].id
    ensures var r := Without(entries, id);
            Ordered(r) && Below(r, high) && forall i :: 0 <= i < |r| ==> low < r[i].id
  {
    if entries != [] { WithoutKeepsOrder(entries[1..], id, entries[0].id, high); }
  }

  lemma {:induction false} WithoutAbsent(entries: seq<Entry>, id: nat)
    requires forall i :: 0 <= i < |entries| ==> entries[i].id != id
    ensures Without(entries, id) == entries
  {
    if entries != [] { WithoutAbsent(entries[1..], id); }
  }

  lemma WithoutFirst(entries: seq<Entry>)
    requires Ordered(entries) && entries != []
    ensures Without(entries, entries[0].id) == entries[1..]
  {
    WithoutAbsent(entries[1..], entries[0].id);
  }

  lemma {:induction false} WithoutLast(entries: seq<Entry>, e: Entry)
    requires Below(entries, e.id)
    ensures Without(entries + [e], e.id) == entries
  {
    if entries == [] {
      assert (entries + [e])[1..] == [];
    } else {
      assert (entries + [e])[1..] == entries[1..] + [e];
      WithoutLast(entries[1..], e);
    }
  }

  function NextId(persisted: seq<Entry>): nat { (if persisted == [] then 0 else persisted[|persisted| - 1].id) + 1 }

  class LocalPublishStore {
    var pending: seq<Entry>
    var nextId: nat

    ghost predicate Valid()
      reads this
    {
      Ordered(pending) && Below(pending, nextId)
    }

    /** Open the store on what was last persisted; ids continue past the greatest one. */
    constructor Load(persisted: seq<Entry>)
      requires Ordered(persisted)
      ensures Valid() && pending == persisted && nextId == NextId(persisted)
    {
      pending := persisted;
      nextId := NextId(persisted);
    }

    method Record(p: Payload) returns (id: nat)
      requires Valid()
      modifies this
      ensures Valid() && id == old(nextId) && nextId == id + 1
      ensures pending == old(pending) + [Entry(id, p)]
    {
      id := nextId;
      nextId := nextId + 1;
      pending := pending + [Entry(id, p)];
    }

    method Complete(id: nat)
      requires Valid()
      modifies this`pending
      ensures Valid() && pending == Without(old(pending), id)
    {
      WithoutKeepsOrder(pending, id, -1, nextId);
      pending := Without(pending, id);
    }
  }

  datatype Reply<T> = Ok(value: T) | Failed

  class Client {
    const store: LocalPublishStore?
    ghost var acked: seq<Payload>

    constructor (store: LocalPublishStore?)
      ensures this.store == store && acked == []
    {
      this.store := store;
      acked := [];
    }

    /** Record, call, complete on success; a failed call leaves the record at the end of the buffer. */
    method Publish(p: Payload, ok: bool) returns (r: Reply<()>)
      requires store != null ==> store.Valid()
      modifies this, store
      ensures r == if ok then Ok(()) else Failed
      ensures acked == old(acked) + if ok then [p] else []
      ensures store != null ==> store.Valid() && store.nextId == old(store.nextId) + 1
      ensures store != null ==>
          store.pending == old(store.pending) + if ok then [] else [Entry(old(store.nextId), p)]
    {
      var id := 0;
      if store != null { id := store.Record(p); }
      if !ok { return Failed; }
      acked := acked + [p];
      if store != null {
        WithoutLast(old(store.pending), Entry(id, p));
        store.Complete(id);
      }
      return Ok(());
    }

    /** One entry is dropped and published anew. */
    method ReplayFirst(store: LocalPublishStore, ok: bool) returns (r: Reply<()>)
      requires this.store == store && store.Valid() && store.pending != []
      modifies this, store
      ensures store.Valid() && r == (if ok then Ok(()) else Failed) && store.nextId == old(store.nextId) + 1
      ensures acked == old(acked) + if ok then [old(store.pending)[0].payload] else []
      ensures store.pending ==
              old(store.pending)[1..] + if ok then [] else [Entry(old(store.nextId), old(store.pending)[0].payload)]
    {
      var entry := store.pending[0];
      WithoutFirst(store.pending);
      store.Complete(entry.id);
      r := Publish(entry.payload, ok);
    }

    /** The replay loop; `n` entries get through. */
    method ReplayEntries(store: LocalPublishStore, ok: nat -> bool) returns (n: nat)
      requires this.store == store && store.Valid()
      modifies this, store
      ensures store.Valid() && n == FirstFailure(ok, |old(store.pending)|)
      ensures acked == old(acked) + Payloads(old(store.pending)[..n])
      ensures store.pending == Replayed(old(store.pending), n, old(store.nextId) + n)
      ensures store.nextId == old(store.nextId) + n + if n < |old(store.pending)| then 1 else 0
    {
      var entries := store.pending;
      for i := 0 to |entries|
        invariant store.Valid() && store.nextId == old(store.nextId) + i
        invariant store.pending == entries[i..]
        invariant acked == old(acked) + Payloads(entries[..i])
        invariant forall j: nat :: j < i ==> ok(j)
      {
        PayloadsSnoc(entries, i);
        var reply := ReplayFirst(store, ok(i));
        assert entries[i..][1..] == entries[i + 1..];
        if reply.Failed? {
          FirstFailureAt(ok, i, |entries|);
          return i;
        }
      }
      FirstFailureAt(ok, |entries|, |entries|);
      return |entries|;
    }

    /**
     Replay the buffer in order, stopping at the first failure.  The entries before it
     are acknowledged, the failed one moves to the back, the rest stay as they were.
     */
    method ReplayPublishStore(ok: nat -> bool) returns (r: Reply<nat>)
      requires store != null ==> store.Valid()
      modifies this, store
      ensures store == null ==> r == Ok(0) && acked == old(acked)
      ensures store != null ==>
          var entries := old(store.pending);
          var n := FirstFailure(ok, |entries|);
          && store.Valid() && store.nextId == old(store.nextId) + n + (if n < |entries| then 1 else 0)
          && acked == old(acked) + Payloads(entries[..n])
          && store.pending == Replayed(entries, n, old(store.nextId) + n)
          && r == if n < |entries| then Failed else Ok(n)
    {
      if store == null { return Ok(0); }
      var count := |store.pending|;
      var n := ReplayEntries(store, ok);
      return if n < count then Failed else Ok(n);
    }
  }

  /** What is buffered once `n` entries got through and the next one, if any, was recorded again. */
  function Replayed(entries: seq<Entry>, n: nat, id: nat): seq<Entry>
    requires n <= |entries|
  {
    if n < |entries| then entries[n + 1..] + [Entry(id, entries[n].payload)] else []
  }

  lemma PayloadsSnoc(entries: seq<Entry>, i: nat)
    requires i < |entries|
    ensures Payloads(entries[..i + 1]) == Payloads(entries[..i]) + [entries[i].payload]
  {
  }

  /** The first call among `n` that fails, or `n`. */
  ghost function FirstFailure(ok: nat -> bool, n: nat): (k: nat)
    ensures k <= n && (forall j: nat :: j < k ==> ok(j)) && (k < n ==> !ok(k))
  {
    if n == 0 then 0
    else
      var k := FirstFailure(ok, n - 1);
      if k < n - 1 || !ok(n - 1) then k else n
  }

  lemma FirstFailureAt(ok: nat -> bool, k: nat, n: nat)
    requires k <= n && (forall j: nat :: j < k ==> ok(j)) && (k < n ==> !ok(k))
    ensures FirstFailure(ok, n) == k
  {
  }

  // ---- at least once ----

  /** What was buffered plus what is sent is what is acknowledged plus what is buffered then. */
  ghost predicate Conserves(before: seq<Entry>, sent: seq<Payload>, acked: seq<Payload>, after: seq<Entry>) {
    multiset(Payloads(before)) + multiset(sent) == multiset(acked) + multiset(Payloads(after))
  }

  /** Whatever fails, replay neither loses nor invents a payload; ids and order may change. */
  lemma ReplayConserves(entries: seq<Entry>, n: nat, id: nat)
    requires n <= |entries|
    ensures Conserves(entries, [], Payloads(entries[..n]), Replayed(entries, n, id))
  {
    var q := Payloads(entries);
    assert Payloads(entries[..n]) == q[..n];
    if n < |entries| {
      assert Payloads(Replayed(entries, n, id)) == q[n + 1..] + [q[n]];
      assert q == q[..n] + [q[n]] + q[n + 1..];
    } else {
      assert q[..n] == q;
    }
  }

  lemma PublishConserves(entries: seq<Entry>, e: Entry, ok: bool)
    ensures Conserves(entries, [e.payload], if ok then [e.payload] else [], entries + if ok then [] else [e])
  {
    assert Payloads(entries + [e]) == Payloads(entries) + [e.payload];
    assert entries + [] == entries;
  }

  /** A reopened store holds what was persisted: payloads buffered since are lost, acknowledged ones come back. */
  ghost function Lost(pending: seq<Entry>, disk: seq<Entry>): multiset<Payload> {
    multiset(Payloads(pending)) - multiset(Payloads(disk))
  }

  lemma ReopenBalances(pending: seq<Entry>, disk: seq<Entry>)
    ensures multiset(Payloads(pending)) + Lost(disk, pending) == multiset(Payloads(disk)) + Lost(pending, disk)
  {
  }

  // ---- runs ----

  /** `CrashOp` loses what is in memory and opens the store again on the file. */
  datatype ClientOp = PublishOp(p: Payload, ok: bool) | ReplayOp(replies: nat -> bool) | PersistOp | CrashOp

  function Sent(op: ClientOp): seq<Payload> { if op.PublishOp? then [op.p] else [] }

  function Published(ops: seq<ClientOp>): seq<Payload> {
    if ops == [] then [] else Published(ops[..|ops| - 1]) + Sent(ops[|ops| - 1])
  }

  /**
   The buffer, the file, and the accounts: acknowledged, lost in crashes, and back from
   the file though acknowledged.
   */
  datatype World = World(pending: seq<Entry>, nextId: nat, disk: seq<Entry>, acked: seq<Payload>,
                         lost: multiset<Payload>, again: multiset<Payload>)

  ghost function StepOf(w: World, op: ClientOp): World {
    match op
    case PublishOp(p, ok) =>
      w.(pending := w.pending + if ok then [] else [Entry(w.nextId, p)], nextId := w.nextId + 1,
         acked := w.acked + if ok then [p] else [])
    case ReplayOp(replies) =>
      var n := FirstFailure(replies, |w.pending|);
      w.(pending := Replayed(w.pending, n, w.nextId + n),
         nextId := w.nextId + n + (if n < |w.pending| then 1 else 0),
         acked := w.acked + Payloads(w.pending[..n]))
    case PersistOp => w.(disk := w.pending)
    case CrashOp =>
      w.(pending := w.disk, nextId := NextId(w.disk),
         lost := w.lost + Lost(w.pending, w.disk), again := w.again + Lost(w.disk, w.pending))
  }

  ghost function WorldAfter(ops: seq<ClientOp>): World {
    if ops == [] then World([], 1, [], [], multiset{}, multiset{})
    else StepOf(WorldAfter(ops[..|ops| - 1]), ops[|ops| - 1])
  }

  /** Every published payload is acknowledged, buffered or lost in a crash, but for those that came back. */
  ghost predicate Balanced(w: World, published: seq<Payload>) {
    multiset(published) + w.again == multiset(w.acked) + multiset(Payloads(w.pending)) + w.lost
  }

  lemma Balance(published: multiset<Payload>, again: multiset<Payload>, acked: multiset<Payload>,
                before: multiset<Payload>,
                lost: multiset<Payload>, sent: multiset<Payload>, more: multiset<Payload>, after: multiset<Payload>)
    requires published + again == acked + before + lost && before + sent == more + after
    ensures published + sent + again == acked + more + after + lost
  {
    assert published + sent + again == (published + again) + sent;
    assert acked + before + lost + sent == acked + (before + sent) + lost;
    assert acked + (more + after) + lost == acked + more + after + lost;
  }

  lemma StepBalances(w: World, op: ClientOp, published: seq<Payload>)
    requires Balanced(w, published)
    ensures Balanced(StepOf(w, op), published + Sent(op))
  {
    var w' := StepOf(w, op);
    if op.CrashOp? {
      ReopenBalances(w.pending, w.disk);
      CrashBalances(multiset(published), w.again, multiset(w.acked), multiset(Payloads(w.pending)), w.lost,
                    multiset(Payloads(w.disk)), Lost(w.pending, w.disk), Lost(w.disk, w.pending));
      assert published + [] == published;
    } else if op.PersistOp? {
      assert published + [] == published;
    } else {
      ghost var more: seq<Payload>;
      if op.PublishOp? {
        PublishConserves(w.pending, Entry(w.nextId, op.p), op.ok);
        more := if op.ok then [op.p] else [];
      } else {
        var n := FirstFailure(op.replies, |w.pending|);
        ReplayConserves(w.pending, n, w.nextId + n);
        more := Payloads(w.pending[..n]);
      }
      assert w'.acked == w.acked + more;
      Balance(multiset(published), w.again, multiset(w.acked), multiset(Payloads(w.pending)), w.lost,
              multiset(Sent(op)), multiset(more), multiset(Payloads(w'.pending)));
    }
  }

  lemma CrashBalances(published: multiset<Payload>, again: multiset<Payload>, acked: multiset<Payload>,
                      pending: multiset<Payload>,
                      lost: multiset<Payload>, disk: multiset<Payload>, gone: multiset<Payload>,
                      back: multiset<Payload>)
    requires published + again == acked + pending + lost && pending + back == disk + gone
    ensures published + (again + back) == acked + disk + (lost + gone)
  {
    assert published + (again + back) == published + again + back;
    assert acked + pending + lost + back == acked + (pending + back) + lost;
    assert acked + (disk + gone) + lost == acked + disk + (lost + gone);
  }

  lemma {:induction false} RunsBalance(ops: seq<ClientOp>)
    ensures Balanced(WorldAfter(ops), Published(ops))
  {
    if ops != [] {
      RunsBalance(ops[..|ops| - 1]);
      StepBalances(WorldAfter(ops[..|ops| - 1]), ops[|ops| - 1], Published(ops[..|ops| - 1]));
    }
  }

  /** At least once: exactly as far as no crash loses a payload that the file did not hold. */
  lemma AtLeastOnce(ops: seq<ClientOp>)
    ensures var w := WorldAfter(ops);
            && multiset(Published(ops)) - w.lost <= multiset(w.acked) + multiset(Payloads(w.pending))
            && (w.lost == multiset{} ==> multiset(Published(ops)) <= multiset(w.acked) + multiset(Payloads(w.pending)))
  {
    RunsBalance(ops);
    var w := WorldAfter(ops);
    var p, kept := multiset(Published(ops)), multiset(w.acked) + multiset(Payloads(w.pending));
    forall x ensures (p - w.lost)[x] <= kept[x] && p[x] <= kept[x] + w.lost[x] {
      assert (p + w.again)[x] == (kept + w.lost)[x];
    }
  }

  /** A crash loses nothing exactly if the file holds every buffered payload. */
  lemma CrashLosesNothingExactly(w: World)
    ensures StepOf(w, CrashOp).lost == w.lost <==> multiset(Payloads(w.pending)) <= multiset(Payloads(w.disk))
  {
    var p, d := multiset(Payloads(w.pending)), multiset(Payloads(w.disk));
    assert w.lost + (p - d) == w.lost <==> p - d == multiset{} by {
      if w.lost + (p - d) == w.lost {
        forall x ensures (p - d)[x] == 0 { assert (w.lost + (p - d))[x] == w.lost[x] + (p - d)[x]; }
      }
    }
    assert p - d == multiset{} <==> p <= d by {
      if p - d == multiset{} {
        forall x ensures p[x] <= d[x] { assert (p - d)[x] == 0; }
      }
    }
  }

  /** Published but not persisted, then a crash: the payload is neither acknowledged nor buffered. */
  lemma UnpersistedIsLost(p: Payload)
    ensures var w := StepOf(StepOf(WorldAfter([]), PublishOp(p, false)), CrashOp);
            w.lost == multiset{p} && w.acked == [] && w.pending == []
  {
    var none := World([], 1, [], [], multiset{}, multiset{});
    assert WorldAfter([]) == none;
    var w := StepOf(none, PublishOp(p, false));
    assert w == World([Entry(1, p)], 2, [], [], multiset{}, multiset{});
    LostOne(Entry(1, p));
  }

  lemma LostOne(e: Entry)
    ensures Lost([e], []) == multiset{e.payload}
  {
    assert Payloads([e]) == [e.payload] && Payloads([]) == [];
  }

  method PublishThrough(store: LocalPublishStore, p: Payload, ok: bool, ghost w: World)
    returns (ghost acked: seq<Payload>)
    requires store.Valid() && store.pending == w.pending && store.nextId == w.nextId
    modifies store
    ensures store.Valid() && store.pending == StepOf(w, PublishOp(p, ok)).pending
            && store.nextId == StepOf(w, PublishOp(p, ok)).nextId
    ensures w.acked + acked == StepOf(w, PublishOp(p, ok)).acked
  {
    var client := new Client(store);
    var r := client.Publish(p, ok);
    acked := client.acked;
  }

  method ReplayThrough(store: LocalPublishStore, replies: nat -> bool, ghost w: World)
    returns (ghost acked: seq<Payload>)
    requires store.Valid() && store.pending == w.pending && store.nextId == w.nextId
    modifies store
    ensures store.Valid() && store.pending == StepOf(w, ReplayOp(replies)).pending
            && store.nextId == StepOf(w, ReplayOp(replies)).nextId
    ensures w.acked + acked == StepOf(w, ReplayOp(replies)).acked
  {
    var client := new Client(store);
    var n := client.ReplayEntries(store, replies);
    acked := client.acked;
  }

  /**
   Any run of publishes, replays, persists and crashes, with any pattern of failures:
   the buffer and the file are those of the accounts, and the accounts balance.
   */
  method RunClient(ops: seq<ClientOp>) returns (store: LocalPublishStore, disk: seq<Entry>, ghost acked: seq<Payload>)
    ensures store.Valid()
    ensures var w := WorldAfter(ops);
            && store.pending == w.pending && disk == w.disk && acked == w.acked
            && Balanced(w, Published(ops))
  {
    store := new LocalPublishStore.Load([]);
    disk, acked := [], [];
    for i := 0 to |ops|
      invariant fresh(store) && store.Valid() && Ordered(disk)
      invariant var w := WorldAfter(ops[..i]);
                store.pending == w.pending && store.nextId == w.nextId && disk == w.disk && acked == w.acked
    {
      assert ops[..i + 1][..i] == ops[..i];
      ghost var w := WorldAfter(ops[..i]);
      if ops[i].PublishOp? {
        ghost var more := PublishThrough(store, ops[i].p, ops[i].ok, w);
        acked := acked + more;
      } else if ops[i].ReplayOp? {
        ghost var more := ReplayThrough(store, ops[i].replies, w);
        acked := acked + more;
      } else if ops[i].PersistOp? {
        disk := store.pending;
      } else {
        store := new LocalPublishStore.Load(disk);
      }
    }
    assert ops[..|ops|] == ops;
    RunsBalance(ops);
  }
}
