/**
 Window numbering: ROW_NUMBER, RANK and DENSE_RANK over partitions.

 The loops compare only neighbours of a sorted partition.  Each is proved to
 give a closed form that mentions no sorted order: a count over the partition.
 */
module Windows {
  import opened Orders
  import opened Values
  import opened Bitmaps
  import opened Grouping

  predicate NatLt(a: nat, b: nat) { a < b }

  // ---- closed forms over a set of peers under a total preorder ----

  ghost predicate Ties(le: (nat, nat) -> bool, a: nat, b: nat) { le(a, b) && le(b, a) }

  /** Strictly earlier in the window, or tied and earlier in the result. */
  ghost function Preceding(peers: set<nat>, le: (nat, nat) -> bool, i: nat): set<nat> {
    set j | j in peers && Before(le, NatLt, j, i)
  }

  ghost function StrictlyEarlier(peers: set<nat>, le: (nat, nat) -> bool, i: nat): set<nat> {
    set j | j in peers && !le(i, j)
  }

  /** The first row, in result order, of a class of tied rows. */
  ghost predicate Leads(peers: set<nat>, le: (nat, nat) -> bool, j: nat) {
    forall k: nat :: k in peers && Ties(le, j, k) ==> j <= k
  }

  /** One leader for each tie class up to the row. */
  ghost function LeadersUpTo(peers: set<nat>, le: (nat, nat) -> bool, i: nat): set<nat> {
    set j | j in peers && le(j, i) && Leads(peers, le, j)
  }

  datatype WindowFn = RowNumber | Rank | DenseRank

  ghost function Numbered(fn: WindowFn, peers: set<nat>, le: (nat, nat) -> bool, i: nat): nat {
    match fn
    case RowNumber => |Preceding(peers, le, i)| + 1
    case Rank => |StrictlyEarlier(peers, le, i)| + 1
    case DenseRank => |LeadersUpTo(peers, le, i)|
  }

  // ---- a sorted partition ----

  ghost predicate Lists(p: seq<nat>, peers: set<nat>) { forall j: nat :: j in p <==> j in peers }

  ghost predicate SortedPartition(p: seq<nat>, peers: set<nat>, le: (nat, nat) -> bool) {
    Lists(p, peers) && TotalPreorder(le) && AscendsBy(le, NatLt, p)
  }

  ghost function Elements(s: seq<nat>): set<nat> { set x | x in s }

  lemma {:induction false} DistinctCount(s: seq<nat>)
    requires Distinct(s)
    ensures |Elements(s)| == |s|
  {
    if s != [] {
      var front, last := s[..|s| - 1], s[|s| - 1];
      DistinctCount(front);
      assert Elements(s) == Elements(front) + {last};
    }
  }

  lemma PartitionDistinct(p: seq<nat>, peers: set<nat>, le: (nat, nat) -> bool)
    requires SortedPartition(p, peers, le)
    ensures Distinct(p)
  {
    forall i, j | 0 <= i < j < |p| ensures p[i] != p[j] {
      assert Before(le, NatLt, p[i], p[j]);
    }
  }

  lemma PrefixCount(p: seq<nat>, k: nat)
    requires Distinct(p) && k <= |p|
    ensures |Elements(p[..k])| == k
  {
    DistinctCount(p[..k]);
  }

  /** The rows before position `pos` are exactly the preceding ones. */
  lemma PrecedingIsPrefix(p: seq<nat>, peers: set<nat>, le: (nat, nat) -> bool, pos: nat)
    requires SortedPartition(p, peers, le) && pos < |p|
    ensures Preceding(peers, le, p[pos]) == Elements(p[..pos])
    ensures Numbered(RowNumber, peers, le, p[pos]) == pos + 1
  {
    var i := p[pos];
    forall j: nat ensures j in Preceding(peers, le, i) <==> j in Elements(p[..pos]) {
      if j in p {
        var k :| 0 <= k < |p| && p[k] == j;
        if k < pos { assert Before(le, NatLt, p[k], p[pos]); assert p[..pos][k] == j; }
        if pos < k { assert Before(le, NatLt, p[pos], p[k]); }
        assert j in p[..pos] ==> Before(le, NatLt, j, i) by { PrefixBefore(p, peers, le, pos, j); }
      }
    }
    PartitionDistinct(p, peers, le);
    PrefixCount(p, pos);
  }

  lemma PrefixBefore(p: seq<nat>, peers: set<nat>, le: (nat, nat) -> bool, pos: nat, j: nat)
    requires SortedPartition(p, peers, le) && pos < |p|
    ensures j in p[..pos] ==> Before(le, NatLt, j, p[pos])
  {
    if j in p[..pos] {
      var k :| 0 <= k < pos && p[k] == j;
    }
  }

  // ---- runs of tied neighbours ----

  /** Where the run of ties containing position `pos` begins. */
  ghost function RunStart(p: seq<nat>, tied: (nat, nat) -> bool, pos: nat): (start: nat)
    requires pos < |p|
    ensures start <= pos
  {
    if pos > 0 && tied(p[pos - 1], p[pos]) then RunStart(p, tied, pos - 1) else pos
  }

  /** How many runs begin at or before `pos`. */
  ghost function RunsUpTo(p: seq<nat>, tied: (nat, nat) -> bool, pos: nat): nat
    requires pos < |p|
  {
    if pos == 0 then 1
    else RunsUpTo(p, tied, pos - 1) + if tied(p[pos - 1], p[pos]) then 0 else 1
  }

  /** The RANK loop: one more than where the run of tied neighbours begins. */
  method Ranks(p: seq<nat>, tied: (nat, nat) -> bool) returns (numbers: seq<nat>)
    ensures |numbers| == |p| && forall k :: 0 <= k < |p| ==> numbers[k] == RunStart(p, tied, k) + 1
  {
    numbers := [];
    var lastRank := 0;
    for pos := 0 to |p|
      invariant |numbers| == pos && forall k :: 0 <= k < pos ==> numbers[k] == RunStart(p, tied, k) + 1
      invariant pos > 0 ==> lastRank == RunStart(p, tied, pos - 1) + 1
    {
      if pos == 0 {
        lastRank := 1;
      } else if !tied(p[pos - 1], p[pos]) {
        lastRank := pos + 1;
      }
      numbers := numbers + [lastRank];
    }
  }

  /** The DENSE_RANK loop: how many runs of tied neighbours have begun. */
  method DenseRanks(p: seq<nat>, tied: (nat, nat) -> bool) returns (numbers: seq<nat>)
    ensures |numbers| == |p| && forall k {:trigger numbers[k]} :: 0 <= k < |p| ==> numbers[k] == RunsUpTo(p, tied, k)
  {
    numbers := [];
    var lastRank := 0;
    for pos := 0 to |p|
      invariant |numbers| == pos && forall k {:trigger numbers[k]} :: 0 <= k < pos ==>
                  numbers[k] == RunsUpTo(p, tied, k)
      invariant pos > 0 ==> lastRank == RunsUpTo(p, tied, pos - 1)
    {
      if pos == 0 {
        lastRank := 1;
      } else if !tied(p[pos - 1], p[pos]) {
        lastRank := lastRank + 1;
      }
      numbers := numbers + [lastRank];
    }
  }

  // ---- runs against the window order ----

  /** The tie test decides the ties of `le` among the rows of the partition. */
  ghost predicate Decides(tied: (nat, nat) -> bool, le: (nat, nat) -> bool, peers: set<nat>) {
    forall a: nat, b: nat :: a in peers && b in peers ==> (tied(a, b) <==> Ties(le, a, b))
  }

  lemma SortedAt(p: seq<nat>, peers: set<nat>, le: (nat, nat) -> bool, a: nat, b: nat)
    requires SortedPartition(p, peers, le) && a <= b < |p|
    ensures le(p[a], p[b])
    ensures Ties(le, p[a], p[b]) ==> p[a] <= p[b]
  {
    if a < b { assert Before(le, NatLt, p[a], p[b]); }
  }

  /** Whatever follows a break between neighbours is strictly later than whatever precedes it. */
  lemma BreakSeparates(p: seq<nat>, peers: set<nat>, le: (nat, nat) -> bool, pos: nat, j: nat)
    requires SortedPartition(p, peers, le) && 0 < pos < |p| && !Ties(le, p[pos - 1], p[pos]) && j in peers
    ensures j in p[..pos] <==> !le(p[pos], j)
    ensures j in p[..pos] <==> le(j, p[pos - 1])
  {
    SortedAt(p, peers, le, pos - 1, pos);
    var k :| 0 <= k < |p| && p[k] == j;
    if k < pos {
      SortedAt(p, peers, le, k, pos - 1);
      assert p[..pos][k] == j;
    } else {
      SortedAt(p, peers, le, pos, k);
    }
  }

  lemma {:induction false} EarlierIsPrefix(p: seq<nat>, peers: set<nat>, le: (nat, nat) -> bool,
                                           tied: (nat, nat) -> bool, pos: nat)
    requires SortedPartition(p, peers, le) && Decides(tied, le, peers) && pos < |p|
    ensures StrictlyEarlier(peers, le, p[pos]) == Elements(p[..RunStart(p, tied, pos)])
  {
    if pos == 0 {
      forall j: nat | j in peers ensures le(p[0], j) {
        var k :| 0 <= k < |p| && p[k] == j;
        SortedAt(p, peers, le, 0, k);
      }
    } else if Ties(le, p[pos - 1], p[pos]) {
      EarlierIsPrefix(p, peers, le, tied, pos - 1);
      assert StrictlyEarlier(peers, le, p[pos]) == StrictlyEarlier(peers, le, p[pos - 1]);
    } else {
      forall j: nat ensures j in StrictlyEarlier(peers, le, p[pos]) <==> j in p[..pos] {
        if j in peers { BreakSeparates(p, peers, le, pos, j); }
      }
    }
  }

  /** RANK counts the strictly earlier rows. */
  lemma RankIsRunStart(p: seq<nat>, peers: set<nat>, le: (nat, nat) -> bool, tied: (nat, nat) -> bool, pos: nat)
    requires SortedPartition(p, peers, le) && Decides(tied, le, peers) && pos < |p|
    ensures Numbered(Rank, peers, le, p[pos]) == RunStart(p, tied, pos) + 1
  {
    EarlierIsPrefix(p, peers, le, tied, pos);
    PartitionDistinct(p, peers, le);
    PrefixCount(p, RunStart(p, tied, pos));
  }

  /** A row that starts a run leads its tie class, and no other row of the class does. */
  lemma RunStartLeads(p: seq<nat>, peers: set<nat>, le: (nat, nat) -> bool, pos: nat, j: nat)
    requires SortedPartition(p, peers, le) && pos < |p| && (pos > 0 ==> !Ties(le, p[pos - 1], p[pos]))
    ensures Leads(peers, le, p[pos])
    ensures j in peers && Ties(le, j, p[pos]) && Leads(peers, le, j) ==> j == p[pos]
  {
    forall k: nat | k in peers && Ties(le, p[pos], k) ensures p[pos] <= k {
      if pos > 0 { BreakSeparates(p, peers, le, pos, k); }
      var at :| 0 <= at < |p| && p[at] == k;
      if at >= pos { SortedAt(p, peers, le, pos, at); }
    }
  }

  lemma NewLeader(p: seq<nat>, peers: set<nat>, le: (nat, nat) -> bool, pos: nat)
    requires SortedPartition(p, peers, le) && 0 < pos < |p| && !Ties(le, p[pos - 1], p[pos])
    ensures LeadersUpTo(peers, le, p[pos]) == LeadersUpTo(peers, le, p[pos - 1]) + {p[pos]}
    ensures p[pos] !in LeadersUpTo(peers, le, p[pos - 1])
  {
    var i := p[pos];
    SortedAt(p, peers, le, pos - 1, pos);
    forall j: nat ensures j in LeadersUpTo(peers, le, i) <==> j in LeadersUpTo(peers, le, p[pos - 1]) || j == i {
      RunStartLeads(p, peers, le, pos, j);
      if j in peers { BreakSeparates(p, peers, le, pos, j); }
    }
  }

  lemma FirstLeader(p: seq<nat>, peers: set<nat>, le: (nat, nat) -> bool)
    requires SortedPartition(p, peers, le) && p != []
    ensures LeadersUpTo(peers, le, p[0]) == {p[0]}
  {
    forall j: nat ensures j in LeadersUpTo(peers, le, p[0]) <==> j == p[0] {
      RunStartLeads(p, peers, le, 0, j);
      if j in p {
        var k :| 0 <= k < |p| && p[k] == j;
        SortedAt(p, peers, le, 0, k);
      }
    }
  }

  lemma SameLeaders(peers: set<nat>, le: (nat, nat) -> bool, i: nat, j: nat)
    requires TotalPreorder(le) && Ties(le, i, j)
    ensures LeadersUpTo(peers, le, i) == LeadersUpTo(peers, le, j)
  {
  }

  /** DENSE_RANK counts the tie classes up to the row. */
  lemma {:induction false} DenseRankIsRuns(p: seq<nat>, peers: set<nat>, le: (nat, nat) -> bool,
                                           tied: (nat, nat) -> bool, pos: nat)
    requires SortedPartition(p, peers, le) && Decides(tied, le, peers) && pos < |p|
    ensures |LeadersUpTo(peers, le, p[pos])| == RunsUpTo(p, tied, pos)
  {
    if pos == 0 {
      FirstLeader(p, peers, le);
    } else {
      DenseRankIsRuns(p, peers, le, tied, pos - 1);
      if tied(p[pos - 1], p[pos]) {
        SameLeaders(peers, le, p[pos - 1], p[pos]);
      } else {
        NewLeader(p, peers, le, pos);
      }
    }
  }

  // ---- one partition ----

  /** What one window computes: its numbering, its order and tie test, and whether it sorts at all. */
  datatype Ranking = Ranking(fn: WindowFn, sorts: bool, le: (nat, nat) -> bool, tied: (nat, nat) -> bool) {
    /** Without an ORDER BY every row ties with every other. */
    ghost predicate Valid(n: nat) {
      && TotalPreorder(le)
      && (forall a: nat, b: nat :: a < n && b < n ==> (tied(a, b) <==> Ties(le, a, b)))
      && (!sorts ==> forall a: nat, b: nat :: a < n && b < n ==> le(a, b))
    }
  }

  /** Sort one partition; an empty ORDER BY leaves it in result order. */
  method SortPartition(k: Ranking, n: nat, part: seq<nat>, ghost peers: set<nat>) returns (p: seq<nat>)
    requires k.Valid(n) && Lists(part, peers) && Ascends(NatLt, part)
    requires forall j: nat :: j in peers ==> j < n
    ensures SortedPartition(p, peers, k.le)
  {
    if k.sorts {
      p := StableSort(part, k.le);
      StableSortAscends(part, k.le, NatLt);
      forall j: nat ensures j in p <==> j in part { SortKeepsElements(part, k.le, j); }
    } else {
      p := part;
      assert forall i :: 0 <= i < |p| ==> p[i] in p;
    }
  }

  ghost predicate NumbersOf(fn: WindowFn, peers: set<nat>, le: (nat, nat) -> bool, p: seq<nat>, numbers: seq<nat>) {
    |numbers| == |p| && forall k :: 0 <= k < |p| ==> numbers[k] == Numbered(fn, peers, le, p[k])
  }

  /** Every row of a sorted partition gets the number of its closed form. */
  method Number(k: Ranking, p: seq<nat>, ghost peers: set<nat>) returns (numbers: seq<nat>)
    requires SortedPartition(p, peers, k.le) && Decides(k.tied, k.le, peers)
    ensures NumbersOf(k.fn, peers, k.le, p, numbers)
  {
    match k.fn
    case RowNumber =>
      numbers := seq(|p|, i => i + 1);
      forall i | 0 <= i < |p| ensures numbers[i] == Numbered(RowNumber, peers, k.le, p[i]) {
        PrecedingIsPrefix(p, peers, k.le, i);
      }
    case Rank =>
      numbers := Ranks(p, k.tied);
      forall i | 0 <= i < |p| ensures numbers[i] == Numbered(Rank, peers, k.le, p[i]) {
        RankIsRunStart(p, peers, k.le, k.tied, i);
      }
    case DenseRank =>
      numbers := DenseRanks(p, k.tied);
      forall i | 0 <= i < |p| ensures numbers[i] == Numbered(DenseRank, peers, k.le, p[i]) {
        DenseRankIsRuns(p, peers, k.le, k.tied, i);
      }
  }

  method FillPartition<J>(rows: array<map<string, J>>, alias: string, p: seq<nat>, numbers: seq<nat>, json: nat -> J)
    requires Distinct(p) && |numbers| == |p| && forall k :: 0 <= k < |p| ==> p[k] < rows.Length
    modifies rows
    ensures forall k :: 0 <= k < |p| ==> rows[p[k]] == old(rows[p[k]])[alias := json(numbers[k])]
    ensures forall i :: 0 <= i < rows.Length && i !in p ==> rows[i] == old(rows[i])
  {
    for pos := 0 to |p|
      invariant forall k :: 0 <= k < pos ==> rows[p[k]] == old(rows[p[k]])[alias := json(numbers[k])]
      invariant forall k :: pos <= k < |p| ==> rows[p[k]] == old(rows[p[k]])
      invariant forall i :: 0 <= i < rows.Length && i !in p ==> rows[i] == old(rows[i])
    {
      rows[p[pos]] := rows[p[pos]][alias := json(numbers[pos])];
    }
  }

  /** Write the numbers of one partition into its rows. */
  method NumberPartition<J>(k: Ranking, rows: array<map<string, J>>, alias: string, json: nat -> J,
                            part: seq<nat>, ghost peers: set<nat>)
    requires k.Valid(rows.Length) && Lists(part, peers) && Ascends(NatLt, part)
    requires forall j: nat :: j in peers ==> j < rows.Length
    modifies rows
    ensures forall i: nat :: i in peers ==> rows[i] == old(rows[i])[alias := json(Numbered(k.fn, peers, k.le, i))]
    ensures forall i: nat :: i < rows.Length && i !in peers ==> rows[i] == old(rows[i])
  {
    var p := SortPartition(k, rows.Length, part, peers);
    var numbers := Number(k, p, peers);
    PartitionDistinct(p, peers, k.le);
    assert forall i :: 0 <= i < |p| ==> p[i] in p;
    FillPartition(rows, alias, p, numbers, json);
    forall i: nat | i in peers ensures rows[i] == old(rows[i])[alias := json(Numbered(k.fn, peers, k.le, i))] {
      var at :| 0 <= at < |p| && p[at] == i;
    }
  }

  // ---- all partitions ----

  ghost function Peers(n: nat, keyOf: nat -> GroupKey, key: GroupKey): set<nat> {
    set j | 0 <= j < n && keyOf(j) == key
  }

  lemma MembersListPeers(n: nat, keyOf: nat -> GroupKey, key: GroupKey)
    ensures Lists(Members(UpTo(n), keyOf, key), Peers(n, keyOf, key))
    ensures Ascends(NatLt, Members(UpTo(n), keyOf, key))
  {
    forall j: nat ensures j in Members(UpTo(n), keyOf, key) <==> j in Peers(n, keyOf, key) {
      MembersAre(UpTo(n), keyOf, key, j);
    }
    MembersAscend(UpTo(n), keyOf, key);
  }

  /** Every row whose key is in `done` carries its number; the others are as they were. */
  ghost predicate Progress<J>(now: seq<map<string, J>>, before: seq<map<string, J>>, alias: string, json: nat -> J,
                              keyOf: nat -> GroupKey, done: seq<GroupKey>, value: nat -> nat) {
    && |now| == |before|
    && forall i: nat :: i < |now| ==>
         now[i] == if keyOf(i) in done then before[i][alias := json(value(i))] else before[i]
  }

  lemma ProgressStep<J>(now: seq<map<string, J>>, next: seq<map<string, J>>, before: seq<map<string, J>>, alias: string,
                        json: nat -> J, keyOf: nat -> GroupKey, done: seq<GroupKey>, key: GroupKey, value: nat -> nat)
    requires Progress(now, before, alias, json, keyOf, done, value) && key !in done && |next| == |now|
    requires forall i: nat :: i < |now| ==>
               next[i] == if keyOf(i) == key then now[i][alias := json(value(i))] else now[i]
    ensures Progress(next, before, alias, json, keyOf, done + [key], value)
  {
  }

  /** The closed form of the number of result row `i`. */
  ghost function ValueOf(k: Ranking, n: nat, keyOf: nat -> GroupKey, i: nat): nat {
    Numbered(k.fn, Peers(n, keyOf, keyOf(i)), k.le, i)
  }

  ghost predicate Valued(k: Ranking, n: nat, keyOf: nat -> GroupKey, value: nat -> nat) {
    forall i: nat :: i < n ==> value(i) == ValueOf(k, n, keyOf, i)
  }

  /** Number the partition of `key`. */
  method NumberKey<J>(k: Ranking, rows: array<map<string, J>>, alias: string, json: nat -> J,
                      part: seq<nat>, ghost keyOf: nat -> GroupKey, ghost key: GroupKey, ghost value: nat -> nat)
    requires k.Valid(rows.Length)
    requires part == Members(UpTo(rows.Length), keyOf, key) && Valued(k, rows.Length, keyOf, value)
    modifies rows
    ensures forall i: nat :: i < rows.Length ==>
              rows[i] == if keyOf(i) == key then old(rows[i])[alias := json(value(i))] else old(rows[i])
  {
    MembersListPeers(rows.Length, keyOf, key);
    ghost var peers := Peers(rows.Length, keyOf, key);
    NumberPartition(k, rows, alias, json, part, peers);
    assert forall i: nat :: i < rows.Length ==> (i in peers <==> keyOf(i) == key);
  }

  /** The loop over the partitions, which takes each out of the map as it goes. */
  method NumberInOrder<J>(k: Ranking, rows: array<map<string, J>>, alias: string, json: nat -> J,
                          all: map<GroupKey, seq<nat>>, order: seq<GroupKey>,
                          ghost keyOf: nat -> GroupKey, ghost value: nat -> nat)
    requires k.Valid(rows.Length) && Valued(k, rows.Length, keyOf, value) && Distinct(order)
    requires forall key :: key in order ==> key in all && all[key] == Members(UpTo(rows.Length), keyOf, key)
    modifies rows
    ensures Progress(rows[..], old(rows[..]), alias, json, keyOf, order, value)
  {
    var parts := all;
    ghost var before := rows[..];
    for i := 0 to |order|
      invariant Progress(rows[..], before, alias, json, keyOf, order[..i], value)
      invariant forall j :: i <= j < |order| ==> order[j] in parts && parts[order[j]] == all[order[j]]
    {
      var key := order[i];
      ghost var now := rows[..];
      NumberKey(k, rows, alias, json, parts[key], keyOf, key, value);
      parts := parts - {key};
      ProgressStep(now, rows[..], before, alias, json, keyOf, order[..i], key, value);
      assert order[..i + 1] == order[..i] + [key];
    }
    assert order[..|order|] == order;
  }

  lemma ProgressDone<J>(now: seq<map<string, J>>, before: seq<map<string, J>>, alias: string, json: nat -> J,
                        keyOf: nat -> GroupKey, value: nat -> nat)
    requires Progress(now, before, alias, json, keyOf, FirstSeen(Keys(UpTo(|now|), keyOf)), value)
    ensures forall i: nat :: i < |now| ==> now[i] == before[i][alias := json(value(i))]
  {
    forall i: nat | i < |now| ensures now[i] == before[i][alias := json(value(i))] {
      KeySeen(|now|, keyOf, i);
    }
  }

  method NumberAll<J>(k: Ranking, rows: array<map<string, J>>, alias: string, json: nat -> J, keyOf: nat -> GroupKey,
                      ghost value: nat -> nat)
    requires k.Valid(rows.Length) && Valued(k, rows.Length, keyOf, value)
    modifies rows
    ensures forall i: nat :: i < rows.Length ==> rows[i] == old(rows[i])[alias := json(value(i))]
  {
    var parts, order := Partition(rows.Length, keyOf);
    FirstSeenLaws(Keys(UpTo(rows.Length), keyOf));
    NumberInOrder(k, rows, alias, json, parts, order, keyOf, value);
    ProgressDone(rows[..], old(rows[..]), alias, json, keyOf, value);
    assert forall i: nat :: i < rows.Length ==> rows[..][i] == rows[i];
  }

  lemma KeySeen(n: nat, keyOf: nat -> GroupKey, i: nat)
    requires i < n
    ensures keyOf(i) in FirstSeen(Keys(UpTo(n), keyOf))
  {
    var keys := Keys(UpTo(n), keyOf);
    FirstSeenLaws(keys);
    assert i in UpTo(n);
    var at :| 0 <= at < n && UpTo(n)[at] == i;
    assert keys[at] == keyOf(i);
  }

  // ---- the comparator behind the window ----

  /** Equal on every ORDER BY column, whichever the directions. */
  predicate SamePlace(keys: seq<SortKey>, a: Row, b: Row)
    requires forall k :: 0 <= k < |keys| ==> keys[k].col < |a| && keys[k].col < |b|
  {
    forall k :: 0 <= k < |keys| ==> CompareValues(a[keys[k].col], b[keys[k].col]) == Equal
  }

  lemma {:induction false} SamePlaceIsEqual(keys: seq<SortKey>, a: Row, b: Row)
    requires forall k :: 0 <= k < |keys| ==> keys[k].col < |a| && keys[k].col < |b|
    ensures SamePlace(keys, a, b) <==> CompareRows(keys, a, b) == Equal
  {
    if keys != [] {
      SamePlaceIsEqual(keys[1..], a, b);
      assert keys == [keys[0]] + keys[1..];
      assert SamePlace(keys, a, b) <==>
             CompareValues(a[keys[0].col], b[keys[0].col]) == Equal && SamePlace(keys[1..], a, b);
    }
  }

  /** The tie test of the ranking loops is a tie of the window order. */
  lemma SamePlaceTies(keys: seq<SortKey>, rows: seq<Row>, types: seq<ColumnType>, a: nat, b: nat)
    requires a < |rows| && b < |rows| && KeysFit(keys, types)
    requires RowTyped(types, rows[a]) && RowTyped(types, rows[b])
    ensures SamePlace(keys, rows[a], rows[b]) <==> Ties(RowOrder(keys, rows), a, b)
  {
    SamePlaceIsEqual(keys, rows[a], rows[b]);
    CompareRowsAntisymmetric(keys, rows[a], rows[b]);
  }

  datatype Window = Window(fn: WindowFn, partitionBy: seq<nat>, orderBy: seq<SortKey>, alias: string)

  ghost predicate WindowFits(w: Window, types: seq<ColumnType>) {
    && KeysFit(w.orderBy, types)
    && forall i :: 0 <= i < |w.partitionBy| ==> w.partitionBy[i] < |types|
  }

  /** The partition key of a result row, from the row behind it. */
  function PartitionKey(w: Window, types: seq<ColumnType>, behind: seq<Row>): nat -> GroupKey
    requires forall i :: 0 <= i < |behind| ==> RowTyped(types, behind[i])
    requires forall i :: 0 <= i < |w.partitionBy| ==> w.partitionBy[i] < |types|
  {
    (i: nat) =>
      if i < |behind| then
        assert RowTyped(types, behind[i]);
        KeyOf(w.partitionBy, behind[i])
      else []
  }

  /** The comparator and the tie test of the source's closures, on result positions. */
  function RankingOf(w: Window, types: seq<ColumnType>, behind: seq<Row>): Ranking
    requires forall i :: 0 <= i < |behind| ==> RowTyped(types, behind[i])
    requires KeysFit(w.orderBy, types)
  {
    Ranking(w.fn, w.orderBy != [], RowOrder(w.orderBy, behind),
            (a: nat, b: nat) =>
              a < |behind| && b < |behind| &&
              (assert RowTyped(types, behind[a]) && RowTyped(types, behind[b]);
               SamePlace(w.orderBy, behind[a], behind[b])))
  }

  lemma RankingIsValid(w: Window, types: seq<ColumnType>, behind: seq<Row>)
    requires Store(types, behind).Valid() && WindowFits(w, types)
    ensures RankingOf(w, types, behind).Valid(|behind|)
  {
    RowOrderIsPreorder(w.orderBy, Store(types, behind));
    forall a: nat, b: nat | a < |behind| && b < |behind|
      ensures RankingOf(w, types, behind).tied(a, b) <==> Ties(RowOrder(w.orderBy, behind), a, b)
    {
      SamePlaceTies(w.orderBy, behind, types, a, b);
    }
  }

  /** The rows behind the result rows. */
  function Behind(store: Store, source: seq<nat>): seq<Row>
    requires forall i :: 0 <= i < |source| ==> source[i] < |store.rows|
  {
    seq(|source|, i requires 0 <= i < |source| => store.rows[source[i]])
  }

  ghost predicate SourceFits(store: Store, source: seq<nat>) {
    store.Valid() && forall i :: 0 <= i < |source| ==> source[i] < |store.rows|
  }

  /** The closed form of the number a window gives to result row `i`. */
  ghost function WindowValue(w: Window, store: Store, source: seq<nat>, i: nat): nat
    requires SourceFits(store, source) && WindowFits(w, store.types)
  {
    var behind := Behind(store, source);
    ValueOf(RankingOf(w, store.types, behind), |source|, PartitionKey(w, store.types, behind), i)
  }

  /** Each row gains, under the alias, the number of its closed form; nothing else changes. */
  method ApplyWindow<J>(w: Window, rows: array<map<string, J>>, source: seq<nat>, store: Store,
                        json: nat -> J)
    requires SourceFits(store, source) && WindowFits(w, store.types) && rows.Length == |source|
    modifies rows
    ensures forall i: nat :: i < |source| ==>
              rows[i] == old(rows[i])[w.alias := json(WindowValue(w, store, source, i))]
  {
    var behind := Behind(store, source);
    RankingIsValid(w, store.types, behind);
    ghost var value := (i: nat) => WindowValue(w, store, source, i);
    NumberAll(RankingOf(w, store.types, behind), rows, w.alias, json,
              PartitionKey(w, store.types, behind), value);
  }

  /** Over a partition of n rows, ROW_NUMBER takes each of the values 1..n exactly once. */
  /** In a sorted partition the numbers are the positions. */
  lemma NumbersArePositions(p: seq<nat>, peers: set<nat>, le: (nat, nat) -> bool, i: nat) returns (k: nat)
    requires SortedPartition(p, peers, le) && i in peers
    ensures k < |p| && p[k] == i && Numbered(RowNumber, peers, le, i) == k + 1
  {
    assert i in p;
    k :| k < |p| && p[k] == i;
    PrecedingIsPrefix(p, peers, le, k);
  }

  lemma NumbersAreDistinct(p: seq<nat>, peers: set<nat>, le: (nat, nat) -> bool)
    requires SortedPartition(p, peers, le)
    ensures forall i: nat, j: nat :: i in peers && j in peers && i != j ==>
              Numbered(RowNumber, peers, le, i) != Numbered(RowNumber, peers, le, j)
    ensures forall i: nat :: i in peers ==> 1 <= Numbered(RowNumber, peers, le, i) <= |p|
  {
    forall i: nat, j: nat | i in peers && j in peers && i != j
      ensures Numbered(RowNumber, peers, le, i) != Numbered(RowNumber, peers, le, j)
    {
      var a := NumbersArePositions(p, peers, le, i);
      var b := NumbersArePositions(p, peers, le, j);
    }
    forall i: nat | i in peers ensures 1 <= Numbered(RowNumber, peers, le, i) <= |p| {
      var a := NumbersArePositions(p, peers, le, i);
    }
  }

  lemma SortedPeers(n: nat, keyOf: nat -> GroupKey, key: GroupKey, le: (nat, nat) -> bool) returns (p: seq<nat>)
    requires TotalPreorder(le)
    ensures SortedPartition(p, Peers(n, keyOf, key), le) && |p| == |Peers(n, keyOf, key)|
  {
    var peers, part := Peers(n, keyOf, key), Members(UpTo(n), keyOf, key);
    MembersListPeers(n, keyOf, key);
    p := StableSort(part, le);
    StableSortAscends(part, le, NatLt);
    forall j: nat ensures j in p <==> j in peers { SortKeepsElements(part, le, j); }
    PartitionDistinct(p, peers, le);
    DistinctCount(p);
    assert Elements(p) == peers;
  }

  lemma RowNumberBijection(n: nat, keyOf: nat -> GroupKey, key: GroupKey, le: (nat, nat) -> bool, number: nat)
    requires TotalPreorder(le) && 1 <= number <= |Peers(n, keyOf, key)|
    ensures exists i: nat :: i in Peers(n, keyOf, key) && Numbered(RowNumber, Peers(n, keyOf, key), le, i) == number
    ensures forall i: nat, j: nat :: i in Peers(n, keyOf, key) && j in Peers(n, keyOf, key) && i != j ==>
              Numbered(RowNumber, Peers(n, keyOf, key), le, i) != Numbered(RowNumber, Peers(n, keyOf, key), le, j)
    ensures forall i: nat :: i in Peers(n, keyOf, key) ==>
              1 <= Numbered(RowNumber, Peers(n, keyOf, key), le, i) <= |Peers(n, keyOf, key)|
  {
    var p := SortedPeers(n, keyOf, key, le);
    NumbersAreDistinct(p, Peers(n, keyOf, key), le);
    PrecedingIsPrefix(p, Peers(n, keyOf, key), le, number - 1);
    assert p[number - 1] in p;
  }
}
