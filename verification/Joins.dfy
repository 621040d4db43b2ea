/**
 Joins of two tables: the hash join with its four kinds, and the AS OF join,
 each against a nested-loop definition.
 */
module Joins {
  import opened Wrappers
  import opened Orders
  import opened Values
  import opened Bitmaps
  import opened Grouping
  import opened JoinKeys
  import Topics

  /** The rows behind one output row. */
  datatype Pair = Both(l: nat, r: nat) | LeftOnly(l: nat) | RightOnly(r: nat)

  // ---- nested loops ----

  /** The right rows that match `l`, ascending. */
  ghost function MatchesOf(nr: nat, on: (nat, nat) -> bool, l: nat): seq<nat> {
    Members(UpTo(nr), (r: nat) => on(l, r), true)
  }

  /** All matches of a left row; without any, the row by itself if it is to be kept. */
  function Fan(l: nat, matches: seq<nat>, keepLeft: bool): seq<Pair> {
    if matches != [] then seq(|matches|, i requires 0 <= i < |matches| => Both(l, matches[i]))
    else if keepLeft then [LeftOnly(l)] else []
  }

  /** The outputs of a loop over 0..n, one after the other. */
  ghost function Concat(n: nat, f: nat -> seq<Pair>): seq<Pair> {
    if n == 0 then [] else Concat(n - 1, f) + f(n - 1)
  }

  lemma {:induction false} ConcatAre(n: nat, f: nat -> seq<Pair>, p: Pair)
    ensures p in Concat(n, f) <==> exists i: nat :: i < n && p in f(i)
  {
    if n > 0 {
      ConcatAre(n - 1, f, p);
      assert p in Concat(n, f) <==> p in Concat(n - 1, f) || p in f(n - 1);
    }
  }

  ghost function FanOf(nr: nat, on: (nat, nat) -> bool, keepLeft: bool): nat -> seq<Pair> {
    (l: nat) => Fan(l, MatchesOf(nr, on, l), keepLeft)
  }

  ghost function LeftLoop(nl: nat, nr: nat, on: (nat, nat) -> bool, keepLeft: bool): seq<Pair> {
    Concat(nl, FanOf(nr, on, keepLeft))
  }

  ghost predicate MatchedBy(nl: nat, on: (nat, nat) -> bool, r: nat) { exists l: nat :: l < nl && on(l, r) }

  ghost function RestOf(nl: nat, on: (nat, nat) -> bool): nat -> seq<Pair> {
    (r: nat) => if MatchedBy(nl, on, r) then [] else [RightOnly(r)]
  }

  ghost function RightLoop(nl: nat, nr: nat, on: (nat, nat) -> bool): seq<Pair> { Concat(nr, RestOf(nl, on)) }

  ghost function NestedLoop(nl: nat, nr: nat, on: (nat, nat) -> bool, keepLeft: bool, keepRight: bool): seq<Pair> {
    LeftLoop(nl, nr, on, keepLeft) + if keepRight then RightLoop(nl, nr, on) else []
  }

  // ---- what the nested loops contain ----

  lemma MatchesAre(nr: nat, on: (nat, nat) -> bool, l: nat, r: nat)
    ensures r in MatchesOf(nr, on, l) <==> r < nr && on(l, r)
  {
    MembersAre(UpTo(nr), (r: nat) => on(l, r), true, r);
  }

  /** No right row matches `l`. */
  ghost predicate Lonely(nr: nat, on: (nat, nat) -> bool, l: nat) { forall r: nat :: r < nr ==> !on(l, r) }

  lemma LonelyHasNoMatches(nr: nat, on: (nat, nat) -> bool, l: nat)
    ensures MatchesOf(nr, on, l) == [] <==> Lonely(nr, on, l)
  {
    var matches := MatchesOf(nr, on, l);
    if matches != [] {
      assert matches[0] in matches;
      MatchesAre(nr, on, l, matches[0]);
    } else {
      forall r: nat | r < nr ensures !on(l, r) { MatchesAre(nr, on, l, r); }
    }
  }

  /** A left row with a match, or one without any that is kept. */
  ghost predicate FromLeft(nr: nat, on: (nat, nat) -> bool, keepLeft: bool, p: Pair) {
    match p
    case Both(l, r) => r < nr && on(l, r)
    case LeftOnly(l) => keepLeft && Lonely(nr, on, l)
    case RightOnly(_) => false
  }

  lemma FanAre(nr: nat, on: (nat, nat) -> bool, l: nat, keepLeft: bool, p: Pair)
    ensures p in Fan(l, MatchesOf(nr, on, l), keepLeft) <==> FromLeft(nr, on, keepLeft, p) && p.l == l
  {
    var matches := MatchesOf(nr, on, l);
    LonelyHasNoMatches(nr, on, l);
    if p.Both? {
      MatchesAre(nr, on, l, p.r);
      if p.l == l && p.r in matches {
        var i :| 0 <= i < |matches| && matches[i] == p.r;
        assert Fan(l, matches, keepLeft)[i] == p;
      }
    }
  }

  lemma LeftLoopAre(nl: nat, nr: nat, on: (nat, nat) -> bool, keepLeft: bool, p: Pair)
    ensures p in LeftLoop(nl, nr, on, keepLeft) <==> FromLeft(nr, on, keepLeft, p) && p.l < nl
  {
    var fanOf := FanOf(nr, on, keepLeft);
    ConcatAre(nl, fanOf, p);
    forall l: nat ensures p in fanOf(l) <==> FromLeft(nr, on, keepLeft, p) && p.l == l {
      FanAre(nr, on, l, keepLeft, p);
    }
    if FromLeft(nr, on, keepLeft, p) && p.l < nl { assert p in fanOf(p.l); }
  }

  lemma RightLoopAre(nl: nat, nr: nat, on: (nat, nat) -> bool, p: Pair)
    ensures p in RightLoop(nl, nr, on) <==> p.RightOnly? && p.r < nr && !MatchedBy(nl, on, p.r)
  {
    var restOf := RestOf(nl, on);
    ConcatAre(nr, restOf, p);
    if p.RightOnly? && p.r < nr && !MatchedBy(nl, on, p.r) { assert p in restOf(p.r); }
  }

  /** Every matching pair, every unmatched kept row, and nothing else. */
  lemma NestedLoopAre(nl: nat, nr: nat, on: (nat, nat) -> bool, keepLeft: bool, keepRight: bool, p: Pair)
    ensures p in NestedLoop(nl, nr, on, keepLeft, keepRight) <==>
            match p
            case Both(l, r) => l < nl && r < nr && on(l, r)
            case LeftOnly(l) => keepLeft && l < nl && Lonely(nr, on, l)
            case RightOnly(r) => keepRight && r < nr && !MatchedBy(nl, on, r)
  {
    LeftLoopAre(nl, nr, on, keepLeft, p);
    RightLoopAre(nl, nr, on, p);
  }

  // ---- the hash join ----

  /** Rows meet when both have a key and the keys are equal. */
  function OnKeys(leftKey: nat -> Option<string>, rightKey: nat -> Option<string>): (nat, nat) -> bool {
    (l: nat, r: nat) => leftKey(l).Some? && leftKey(l) == rightKey(r)
  }

  /** The index holds, under each key, the right rows that carry it. */
  ghost predicate IndexesRight(index: map<string, seq<nat>>, nr: nat, rightKey: nat -> Option<string>) {
    forall k :: (if k in index then index[k] else []) == Members(UpTo(nr), rightKey, Some(k))
  }

  method BuildIndex(nr: nat, rightKey: nat -> Option<string>) returns (index: map<string, seq<nat>>)
    ensures IndexesRight(index, nr, rightKey)
  {
    index := IndexFold(UpTo(nr), rightKey, [], Push);
    forall k ensures (if k in index then index[k] else []) == Members(UpTo(nr), rightKey, Some(k)) {
      FoldPush(Members(UpTo(nr), rightKey, Some(k)));
    }
  }

  lemma LookupIsMatches(index: map<string, seq<nat>>, nr: nat, leftKey: nat -> Option<string>,
                        rightKey: nat -> Option<string>, l: nat)
    requires IndexesRight(index, nr, rightKey)
    ensures MatchesOf(nr, OnKeys(leftKey, rightKey), l) ==
            if leftKey(l).Some? && leftKey(l).value in index then index[leftKey(l).value] else []
  {
    var on := OnKeys(leftKey, rightKey);
    if leftKey(l).Some? {
      SameMembers(UpTo(nr), (r: nat) => on(l, r), true, rightKey, leftKey(l));
    } else {
      NeverMembers(UpTo(nr), (r: nat) => on(l, r));
    }
  }

  lemma {:induction false} NeverMembers(rows: seq<nat>, f: nat -> bool)
    requires forall r: nat :: !f(r)
    ensures Members(rows, f, true) == []
  {
    if rows != [] { NeverMembers(rows[..|rows| - 1], f); }
  }

  method EmitFan(l: nat, matches: seq<nat>, keepLeft: bool, seen: set<nat>)
    returns (pairs: seq<Pair>, matched: set<nat>)
    ensures pairs == Fan(l, matches, keepLeft)
    ensures matched == seen + set r | r in matches
  {
    pairs, matched := [], seen;
    if matches != [] {
      for i := 0 to |matches|
        invariant |pairs| == i && forall j :: 0 <= j < i ==> pairs[j] == Both(l, matches[j])
        invariant matched == seen + set r | r in matches[..i]
      {
        matched := matched + {matches[i]};
        pairs := pairs + [Both(l, matches[i])];
      }
    } else if keepLeft {
      pairs := [LeftOnly(l)];
    }
  }

  ghost predicate MatchedSet(matched: set<nat>, nl: nat, nr: nat, on: (nat, nat) -> bool) {
    forall r: nat :: r in matched <==> r < nr && MatchedBy(nl, on, r)
  }

  lemma MatchedStep(matched: set<nat>, l: nat, nr: nat, on: (nat, nat) -> bool)
    requires MatchedSet(matched, l, nr, on)
    ensures MatchedSet(matched + (set r | r in MatchesOf(nr, on, l)), l + 1, nr, on)
  {
    var next := matched + (set r | r in MatchesOf(nr, on, l));
    forall r: nat ensures r in next <==> r < nr && MatchedBy(l + 1, on, r) {
      MatchesAre(nr, on, l, r);
      assert MatchedBy(l + 1, on, r) <==> MatchedBy(l, on, r) || on(l, r);
    }
  }

  /** Probe the index with every left row, then emit the right rows no left row met. */
  method HashJoin(nl: nat, nr: nat, leftKey: nat -> Option<string>, rightKey: nat -> Option<string>,
                  keepLeft: bool, keepRight: bool) returns (out: seq<Pair>)
    ensures out == NestedLoop(nl, nr, OnKeys(leftKey, rightKey), keepLeft, keepRight)
  {
    var index := BuildIndex(nr, rightKey);
    ghost var on := OnKeys(leftKey, rightKey);
    var matched: set<nat> := {};
    out := [];
    for l := 0 to nl
      invariant out == LeftLoop(l, nr, on, keepLeft) && MatchedSet(matched, l, nr, on)
    {
      var key := leftKey(l);
      var matches := if key.Some? && key.value in index then index[key.value] else [];
      LookupIsMatches(index, nr, leftKey, rightKey, l);
      MatchedStep(matched, l, nr, on);
      var pairs;
      pairs, matched := EmitFan(l, matches, keepLeft, matched);
      out := out + pairs;
    }
    if keepRight {
      var rest := EmitUnmatched(nl, nr, on, matched);
      out := out + rest;
    } else {
      assert out + [] == out;
    }
  }

  method EmitUnmatched(ghost nl: nat, nr: nat, ghost on: (nat, nat) -> bool, matched: set<nat>)
    returns (rest: seq<Pair>)
    requires MatchedSet(matched, nl, nr, on)
    ensures rest == RightLoop(nl, nr, on)
  {
    rest := [];
    for r := 0 to nr
      invariant rest == RightLoop(nl, r, on)
    {
      if r !in matched { rest := rest + [RightOnly(r)]; }
    }
  }

  // ---- the AS OF join ----

  /** What an AS OF join reads of the two tables; a null left time is the least one. */
  datatype Times = Times(leftKey: nat -> Option<string>, rightKey: nat -> Option<string>,
                         leftTime: nat -> I64, rightTime: nat -> Option<I64>) {
    /** A right row of the same key, with a time not after the left row's. */
    predicate Candidate(l: nat, r: nat) {
      leftKey(l).Some? && leftKey(l) == rightKey(r) && rightTime(r).Some? && rightTime(r).value <= leftTime(l)
    }

    /** Later time, or the same time and not an earlier row. */
    predicate NotAfter(a: nat, b: nat) {
      rightTime(a).Some? && rightTime(b).Some? &&
      (rightTime(a).value < rightTime(b).value || (rightTime(a).value == rightTime(b).value && a <= b))
    }
  }

  ghost predicate IsLatest(t: Times, nr: nat, l: nat, r: nat) {
    r < nr && t.Candidate(l, r) && forall s: nat :: s < nr && t.Candidate(l, s) ==> t.NotAfter(s, r)
  }

  lemma {:induction false} LatestExists(t: Times, nr: nat, l: nat, r: nat)
    requires r < nr && t.Candidate(l, r)
    ensures exists s: nat :: IsLatest(t, nr, l, s)
  {
    var last := nr - 1;
    if s: nat :| s < last && t.Candidate(l, s) {
      LatestExists(t, last, l, s);
      var best: nat :| IsLatest(t, last, l, best);
      if t.Candidate(l, last) && t.NotAfter(best, last) {
        assert IsLatest(t, nr, l, last);
      } else {
        assert IsLatest(t, nr, l, best);
      }
    } else {
      assert IsLatest(t, nr, l, r);
    }
  }

  lemma LatestUnique(t: Times, nr: nat, l: nat, r: nat, s: nat)
    requires IsLatest(t, nr, l, r) && IsLatest(t, nr, l, s)
    ensures r == s
  {
  }

  /** The output of one left row: its latest candidate, if there is a candidate. */
  ghost function PickOf(t: Times, nr: nat): nat -> seq<Pair> {
    (l: nat) => if r: nat :| IsLatest(t, nr, l, r) then [Both(l, r)] else []
  }

  predicate NatLt(a: nat, b: nat) { a < b }

  /** Right rows by time; rows without one never enter the index. */
  function ByTime(t: Times): (nat, nat) -> bool {
    (a: nat, b: nat) =>
      if t.rightTime(b).None? then true
      else t.rightTime(a).Some? && t.rightTime(a).value <= t.rightTime(b).value
  }

  lemma ByTimeIsPreorder(t: Times)
    ensures TotalPreorder(ByTime(t))
  {
  }

  function TimedKey(t: Times): nat -> Option<string> {
    (r: nat) => if t.rightTime(r).Some? then t.rightKey(r) else None
  }

  /** The timed right rows of a key, by time and then by row. */
  ghost predicate Entries(t: Times, nr: nat, k: string, entries: seq<nat>) {
    && (forall r: nat :: r in entries <==> r < nr && TimedKey(t)(r) == Some(k))
    && AscendsBy(ByTime(t), NatLt, entries)
  }

  lemma SortedEntries(t: Times, nr: nat, k: string)
    ensures Entries(t, nr, k, StableSort(Members(UpTo(nr), TimedKey(t), Some(k)), ByTime(t)))
  {
    var members := Members(UpTo(nr), TimedKey(t), Some(k));
    ByTimeIsPreorder(t);
    MembersAscend(UpTo(nr), TimedKey(t), Some(k));
    StableSortAscends(members, ByTime(t), NatLt);
    forall r: nat ensures r in StableSort(members, ByTime(t)) <==> r < nr && TimedKey(t)(r) == Some(k) {
      SortKeepsElements(members, ByTime(t), r);
      MembersAre(UpTo(nr), TimedKey(t), Some(k), r);
    }
  }

  ghost predicate IndexesTimes(t: Times, nr: nat, index: map<string, seq<nat>>) {
    forall k :: Entries(t, nr, k, if k in index then index[k] else [])
  }

  method BuildTimeIndex(t: Times, nr: nat) returns (index: map<string, seq<nat>>)
    ensures IndexesTimes(t, nr, index)
  {
    var unsorted := IndexFold(UpTo(nr), TimedKey(t), [], Push);
    index := map k | k in unsorted :: StableSort(unsorted[k], ByTime(t));
    forall k ensures Entries(t, nr, k, if k in index then index[k] else []) {
      FoldPush(Members(UpTo(nr), TimedKey(t), Some(k)));
      SortedEntries(t, nr, k);
    }
  }

  /** How many leading entries have a time not after `time`: a binary search. */
  method PartitionPoint(t: Times, entries: seq<nat>, time: I64) returns (pos: nat)
    requires forall i :: 0 <= i < |entries| ==> t.rightTime(entries[i]).Some?
    requires forall i, j :: 0 <= i < j < |entries| ==> t.rightTime(entries[i]).value <= t.rightTime(entries[j]).value
    ensures pos <= |entries|
    ensures forall i :: 0 <= i < pos ==> t.rightTime(entries[i]).value <= time
    ensures forall i :: pos <= i < |entries| ==> t.rightTime(entries[i]).value > time
  {
    var lo, hi := 0, |entries|;
    while lo < hi
      invariant 0 <= lo <= hi <= |entries|
      invariant forall i :: 0 <= i < lo ==> t.rightTime(entries[i]).value <= time
      invariant forall i :: hi <= i < |entries| ==> t.rightTime(entries[i]).value > time
    {
      var mid := lo + (hi - lo) / 2;
      if t.rightTime(entries[mid]).value <= time { lo := mid + 1; } else { hi := mid; }
    }
    pos := lo;
  }

  /** The last entry not after the left row is its latest candidate. */
  lemma LastEntryIsLatest(t: Times, nr: nat, l: nat, k: string, entries: seq<nat>, pos: nat)
    requires t.leftKey(l) == Some(k) && Entries(t, nr, k, entries) && pos <= |entries|
    requires forall i :: 0 <= i < |entries| ==> t.rightTime(entries[i]).Some?
    requires forall i :: 0 <= i < pos ==> t.rightTime(entries[i]).value <= t.leftTime(l)
    requires forall i :: pos <= i < |entries| ==> t.rightTime(entries[i]).value > t.leftTime(l)
    ensures pos > 0 ==> IsLatest(t, nr, l, entries[pos - 1])
    ensures pos == 0 ==> forall r: nat :: r < nr ==> !t.Candidate(l, r)
  {
    forall r: nat | r < nr && t.Candidate(l, r)
      ensures exists i :: 0 <= i < pos && entries[i] == r
    {
      assert r in entries;
      var i :| 0 <= i < |entries| && entries[i] == r;
    }
    if pos > 0 {
      var best := entries[pos - 1];
      assert best in entries;
      forall s: nat | s < nr && t.Candidate(l, s) ensures t.NotAfter(s, best) {
        var i :| 0 <= i < pos && entries[i] == s;
        if i < pos - 1 { assert Before(ByTime(t), NatLt, entries[i], entries[pos - 1]); }
      }
    }
  }

  lemma EntriesTimed(t: Times, nr: nat, k: string, entries: seq<nat>)
    requires Entries(t, nr, k, entries)
    ensures forall i :: 0 <= i < |entries| ==> t.rightTime(entries[i]).Some?
    ensures forall i, j :: 0 <= i < j < |entries| ==>
              t.rightTime(entries[i]).Some? && t.rightTime(entries[j]).Some? &&
              t.rightTime(entries[i]).value <= t.rightTime(entries[j]).value
  {
    forall i | 0 <= i < |entries| ensures t.rightTime(entries[i]).Some? { assert entries[i] in entries; }
    forall i, j | 0 <= i < j < |entries| ensures t.rightTime(entries[i]).value <= t.rightTime(entries[j]).value {
      assert Before(ByTime(t), NatLt, entries[i], entries[j]);
    }
  }

  /** Resolve one left row against the index. */
  method Resolve(t: Times, nr: nat, index: map<string, seq<nat>>, l: nat) returns (pairs: seq<Pair>)
    requires IndexesTimes(t, nr, index)
    ensures pairs == PickOf(t, nr)(l)
  {
    var key := t.leftKey(l);
    pairs := [];
    if key.Some? && key.value in index {
      var entries := index[key.value];
      EntriesTimed(t, nr, key.value, entries);
      var pos := PartitionPoint(t, entries, t.leftTime(l));
      LastEntryIsLatest(t, nr, l, key.value, entries, pos);
      if pos > 0 {
        pairs := [Both(l, entries[pos - 1])];
        PickIs(t, nr, l, entries[pos - 1]);
      }
    } else if key.Some? {
      assert Entries(t, nr, key.value, []);
      LastEntryIsLatest(t, nr, l, key.value, [], 0);
    }
  }

  lemma PickIs(t: Times, nr: nat, l: nat, r: nat)
    requires IsLatest(t, nr, l, r)
    ensures PickOf(t, nr)(l) == [Both(l, r)]
  {
    forall s: nat | IsLatest(t, nr, l, s) ensures s == r { LatestUnique(t, nr, l, s, r); }
  }

  method AsOfJoin(t: Times, nl: nat, nr: nat) returns (out: seq<Pair>)
    ensures out == Concat(nl, PickOf(t, nr))
  {
    var index := BuildTimeIndex(t, nr);
    out := [];
    for l := 0 to nl
      invariant out == Concat(l, PickOf(t, nr))
    {
      var pairs := Resolve(t, nr, index, l);
      out := out + pairs;
    }
  }

  /**
   A left row appears exactly when it has a candidate, and then once, with the
   candidate of the greatest time, ties going to the later right row.
   */
  lemma AsOfMeaning(t: Times, nl: nat, nr: nat, p: Pair)
    ensures p in Concat(nl, PickOf(t, nr)) <==> p.Both? && p.l < nl && IsLatest(t, nr, p.l, p.r)
    ensures forall l: nat :: |PickOf(t, nr)(l)| <= 1
    ensures forall l: nat :: |PickOf(t, nr)(l)| == 1 <==> exists r: nat :: r < nr && t.Candidate(l, r)
  {
    var pick := PickOf(t, nr);
    ConcatAre(nl, pick, p);
    if p.Both? && p.l < nl && IsLatest(t, nr, p.l, p.r) {
      PickIs(t, nr, p.l, p.r);
      assert p in pick(p.l);
    }
    if p in Concat(nl, pick) {
      var l: nat :| l < nl && p in pick(l);
    }
    forall l: nat ensures |pick(l)| == 1 <==> exists r: nat :: r < nr && t.Candidate(l, r) {
      if r: nat :| r < nr && t.Candidate(l, r) { LatestExists(t, nr, l, r); }
    }
  }

  /** A left row whose time is null never matches. */
  lemma NullTimeNeverMatches(t: Times, nr: nat, l: nat)
    requires t.leftTime(l) == NULL_TIMESTAMP && forall r: nat :: t.rightTime(r).Some? ==>
               t.rightTime(r).value != NULL_TIMESTAMP
    ensures PickOf(t, nr)(l) == []
  {
  }

  // ---- only which rows match matters ----

  lemma {:induction false} ConcatCongruent(n: nat, f: nat -> seq<Pair>, g: nat -> seq<Pair>)
    requires forall i: nat :: i < n ==> f(i) == g(i)
    ensures Concat(n, f) == Concat(n, g)
  {
    if n > 0 { ConcatCongruent(n - 1, f, g); }
  }

  ghost predicate SameOn(nl: nat, nr: nat, on: (nat, nat) -> bool, on': (nat, nat) -> bool) {
    forall l: nat, r: nat :: l < nl && r < nr ==> (on(l, r) <==> on'(l, r))
  }

  lemma NestedLoopCongruent(nl: nat, nr: nat, on: (nat, nat) -> bool, on': (nat, nat) -> bool, keepLeft: bool,
                            keepRight: bool)
    requires SameOn(nl, nr, on, on')
    ensures NestedLoop(nl, nr, on, keepLeft, keepRight) == NestedLoop(nl, nr, on', keepLeft, keepRight)
  {
    forall l: nat | l < nl ensures FanOf(nr, on, keepLeft)(l) == FanOf(nr, on', keepLeft)(l) {
      SameMembers(UpTo(nr), (r: nat) => on(l, r), true, (r: nat) => on'(l, r), true);
    }
    ConcatCongruent(nl, FanOf(nr, on, keepLeft), FanOf(nr, on', keepLeft));
    forall r: nat | r < nr ensures MatchedBy(nl, on, r) <==> MatchedBy(nl, on', r) {
    }
    ConcatCongruent(nr, RestOf(nl, on), RestOf(nl, on'));
  }

  // ---- tables ----

  datatype Table = Table(names: seq<string>, store: Store) {
    ghost predicate Valid() { store.Valid() && |names| == |store.types| }
  }

  datatype JoinKind = Inner | LeftOuter | RightOuter | FullOuter | AsOf(timeColumn: string) {
    predicate KeepsLeft() { LeftOuter? || FullOuter? }

    predicate KeepsRight() { RightOuter? || FullOuter? }
  }

  function IndexOf(names: seq<string>, name: string): (i: Option<nat>)
    ensures i.Some? ==> i.value < |names| && names[i.value] == name
    ensures i.None? <==> name !in names
  {
    if names == [] then None
    else if names[|names| - 1] == name then Some(|names| - 1) else IndexOf(names[..|names| - 1], name)
  }

  /** The USING columns of a table that has them all. */
  function ColumnsFor(names: seq<string>, using: seq<string>): (cols: seq<nat>)
    requires forall i :: 0 <= i < |using| ==> using[i] in names
    ensures |cols| == |using|
    ensures forall i :: 0 <= i < |using| ==> cols[i] < |names| && names[cols[i]] == using[i]
  {
    seq(|using|, i requires 0 <= i < |using| => IndexOf(names, using[i]).value)
  }

  ghost function UsingCells(t: Table, cols: seq<nat>, r: nat): seq<Value>
    requires t.Valid() && r < |t.store.rows| && forall i :: 0 <= i < |cols| ==> cols[i] < |t.names|
  {
    assert RowTyped(t.store.types, t.store.rows[r]);
    CellsOf(t.store.rows[r], cols)
  }

  predicate CellsInRange(row: Row, cols: seq<nat>) { forall i :: 0 <= i < |cols| ==> cols[i] < |row| }

  /** The keys of all rows. */
  function KeyTexts(rows: seq<Row>, cols: seq<nat>): seq<Option<string>> {
    seq(|rows|, r requires 0 <= r < |rows| => if CellsInRange(rows[r], cols) then KeyText(CellsOf(rows[r], cols))
        else None)
  }

  function At(keys: seq<Option<string>>): nat -> Option<string> { (r: nat) => if r < |keys| then keys[r] else None }

  function KeyOfRow(rows: seq<Row>, cols: seq<nat>): nat -> Option<string> { At(KeyTexts(rows, cols)) }

  method RowKeys(rows: seq<Row>, cols: seq<nat>) returns (keys: seq<Option<string>>)
    ensures keys == KeyTexts(rows, cols)
  {
    keys := [];
    for r := 0 to |rows|
      invariant keys == KeyTexts(rows, cols)[..r]
    {
      var key: Option<string> := None;
      if CellsInRange(rows[r], cols) { key := KeyFor(rows[r], cols); }
      keys := keys + [key];
    }
  }

  /** A timestamp or a long, unless null. */
  function TimeOf(v: Value): (t: Option<I64>)
    ensures t.Some? ==> t.value != NULL_TIMESTAMP
  {
    if v.Timestamp? && v.t != NULL_TIMESTAMP then Some(v.t)
    else if v.Long? && v.n != NULL_LONG then Some(v.n)
    else None
  }

  function TimeAt(rows: seq<Row>, col: nat, r: nat): Option<I64> {
    if r < |rows| && col < |rows[r]| then TimeOf(rows[r][col]) else None
  }

  function TimesWith(leftKey: nat -> Option<string>, rightKey: nat -> Option<string>, left: Table, right: Table,
                     leftTime: nat, rightTime: nat): Times {
    Times(leftKey, rightKey,
          (l: nat) => var t := TimeAt(left.store.rows, leftTime, l); if t.Some? then t.value else NULL_TIMESTAMP,
          (r: nat) => TimeAt(right.store.rows, rightTime, r))
  }

  function TimesOf(left: Table, right: Table, leftCols: seq<nat>, rightCols: seq<nat>, leftTime: nat,
                   rightTime: nat): Times
  {
    TimesWith(KeyOfRow(left.store.rows, leftCols), KeyOfRow(right.store.rows, rightCols), left, right, leftTime,
              rightTime)
  }

  // ---- output rows ----

  datatype Source = LeftColumn(c: nat) | RightColumn(c: nat)

  function RightColumns(names: seq<string>, using: seq<string>): seq<Source> {
    if names == [] then []
    else
      RightColumns(names[..|names| - 1], using) +
      if names[|names| - 1] in using then [] else [RightColumn(|names| - 1)]
  }

  /** Every left column, then the right columns that are not joined on. */
  function Layout(left: Table, right: Table, using: seq<string>): seq<Source> {
    seq(|left.names|, i requires 0 <= i < |left.names| => LeftColumn(i)) + RightColumns(right.names, using)
  }

  function CellOf(rows: seq<Row>, r: nat, c: nat): Value { if r < |rows| && c < |rows[r]| then rows[r][c] else Null }

  /** A right-only row shows, in a left column, the right column of the same name. */
  function Shown(left: Table, right: Table, p: Pair, source: Source): Value {
    match source
    case LeftColumn(c) =>
      if p.RightOnly? then
        var same := if c < |left.names| then IndexOf(right.names, left.names[c]) else None;
        if same.Some? then CellOf(right.store.rows, p.r, same.value) else Null
      else CellOf(left.store.rows, p.l, c)
    case RightColumn(c) => if p.LeftOnly? then Null else CellOf(right.store.rows, p.r, c)
  }

  function RowOf(left: Table, right: Table, using: seq<string>, p: Pair): Row {
    var layout := Layout(left, right, using);
    seq(|layout|, i requires 0 <= i < |layout| => Shown(left, right, p, layout[i]))
  }

  function TypeOf(left: Table, right: Table, source: Source): ColumnType {
    match source
    case LeftColumn(c) => if c < |left.store.types| then left.store.types[c] else LongType
    case RightColumn(c) => if c < |right.store.types| then right.store.types[c] else LongType
  }

  /** The types of the combined table. */
  function CombinedTypes(left: Table, right: Table, using: seq<string>): seq<ColumnType> {
    var layout := Layout(left, right, using);
    seq(|layout|, i requires 0 <= i < |layout| => TypeOf(left, right, layout[i]))
  }

  /** The row the combined table ends up with. */
  function StoredRow(conv: Topics.Conversions, left: Table, right: Table, using: seq<string>, p: Pair): (row: Row)
    ensures RowTyped(CombinedTypes(left, right, using), row)
  {
    var types := CombinedTypes(left, right, using);
    Topics.Written(conv, types, Topics.NullRow(types), RowOf(left, right, using, p))
  }

  /** A cell that, put into a null cell of a column of type `ty`, leaves it null. */
  predicate StoresNull(conv: Topics.Conversions, ty: ColumnType, v: Value) {
    if v.Null? then true
    else if v.HasType(ty) then v.IsNull()
    else match ty
      case DoubleType => (v.Long? ==> Float64.IsNaN(conv.ofInt(v.n))) && (v.Int? ==> Float64.IsNaN(conv.ofInt(v.i)))
      case LongType => !v.Int?
      case IntType => true
      case BytesType => true
      case StringType => !v.Double? && !v.Long? && !v.Int? && (v.Bool? || v.Timestamp? ==> v.IsNull())
      case TimestampType =>
        || v.IsNull() || (v.String? && conv.parseTimestamp(v.s.value) == NULL_TIMESTAMP)
        || !(v.String? || v.Long? || v.Int?)
      case BoolType =>
        || v.IsNull() || (v.String? && conv.parseBool(v.s.value).None?)
        || !(v.String? || v.Long? || v.Int? || v.Double?)
  }

  lemma StoresNullExactly(conv: Topics.Conversions, ty: ColumnType, v: Value)
    ensures StoresNull(conv, ty, v) <==>
            (if v.Null? then NullOf(ty) else Topics.Stored(conv, ty, NullOf(ty), v)).IsNull()
  {
  }

  lemma StoredCell(conv: Topics.Conversions, left: Table, right: Table, using: seq<string>, p: Pair, i: nat)
    requires i < |Layout(left, right, using)|
    ensures var ty, v := TypeOf(left, right, Layout(left, right, using)[i]),
                Shown(left, right, p, Layout(left, right, using)[i]);
            StoredRow(conv, left, right, using, p)[i] ==
            if v.Null? then NullOf(ty) else Topics.Stored(conv, ty, NullOf(ty), v)
  {
    var types := CombinedTypes(left, right, using);
    assert Topics.NullRow(types)[i] == NullOf(types[i]);
  }

  /** Where a row has a left or right side, its cells are stored as they are; a left-only row is null on the right. */
  lemma JoinedCells(conv: Topics.Conversions, left: Table, right: Table, using: seq<string>, p: Pair, i: nat)
    requires left.Valid() && right.Valid() && i < |Layout(left, right, using)|
    requires p.RightOnly? || p.l < |left.store.rows|
    requires p.LeftOnly? || p.r < |right.store.rows|
    ensures var source, cell := Layout(left, right, using)[i], StoredRow(conv, left, right, using, p)[i];
            && (source.LeftColumn? && !p.RightOnly? ==> cell == CellOf(left.store.rows, p.l, source.c))
            && (source.RightColumn? && !p.LeftOnly? ==> cell == CellOf(right.store.rows, p.r, source.c))
            && (source.RightColumn? && p.LeftOnly? ==> cell.IsNull())
  {
    LayoutInRange(left, right, using, i);
    StoredCell(conv, left, right, using, p, i);
    if !p.RightOnly? { assert RowTyped(left.store.types, left.store.rows[p.l]); }
    if !p.LeftOnly? { assert RowTyped(right.store.types, right.store.rows[p.r]); }
  }

  lemma LayoutInRange(left: Table, right: Table, using: seq<string>, i: nat)
    requires i < |Layout(left, right, using)|
    ensures var source := Layout(left, right, using)[i];
            if source.LeftColumn? then source.c < |left.names|
            else source.c < |right.names| && right.names[source.c] !in using
  {
    if i >= |left.names| { RightInRange(right.names, using, i - |left.names|); }
  }

  lemma {:induction false} RightInRange(names: seq<string>, using: seq<string>, i: nat)
    requires i < |RightColumns(names, using)|
    ensures var source := RightColumns(names, using)[i];
            source.RightColumn? && source.c < |names| && names[source.c] !in using
  {
    var front := names[..|names| - 1];
    if i < |RightColumns(front, using)| { RightInRange(front, using, i); }
  }

  /** A right-only row shows null in every left column that is not joined on. */
  ghost predicate LeftSideNull(conv: Topics.Conversions, left: Table, right: Table, using: seq<string>, r: nat) {
    forall c :: 0 <= c < |left.names| && left.names[c] !in using ==>
      c < |StoredRow(conv, left, right, using, RightOnly(r))|
        && StoredRow(conv, left, right, using, RightOnly(r))[c].IsNull()
  }

  /** The column of the right table that a right-only row shows in left column `c`, if any. */
  function Namesake(left: Table, right: Table, using: seq<string>, c: nat): Option<nat> {
    if c < |left.names| && left.names[c] !in using then IndexOf(right.names, left.names[c]) else None
  }

  /**
   It does so if and only if the cell of every right column that shares a name not
   joined on is stored as null in the left column's type.
   */
  lemma RightOnlyExact(conv: Topics.Conversions, left: Table, right: Table, using: seq<string>, r: nat)
    requires left.Valid() && right.Valid() && r < |right.store.rows|
    ensures LeftSideNull(conv, left, right, using, r) <==>
            forall c: nat :: c < |left.names| && Namesake(left, right, using, c).Some? ==>
              StoresNull(conv, left.store.types[c], CellOf(right.store.rows, r, Namesake(left, right, using, c).value))
  {
    var layout := Layout(left, right, using);
    forall c: nat | c < |left.names| && left.names[c] !in using
      ensures var same := Namesake(left, right, using, c);
              StoredRow(conv, left, right, using, RightOnly(r))[c].IsNull() <==>
              (same.Some? ==> StoresNull(conv, left.store.types[c], CellOf(right.store.rows, r, same.value)))
    {
      assert layout[c] == LeftColumn(c);
      StoredCell(conv, left, right, using, RightOnly(r), c);
      StoresNullExactly(conv, left.store.types[c], Shown(left, right, RightOnly(r), layout[c]));
    }
  }

  /** Tables `k, n` joined on `k`: a right row without a partner shows its own `n` in the left `n`. */
  lemma RightValueOnTheLeft(conv: Topics.Conversions)
    ensures var left := Table(["k", "n"], Store([LongType, LongType], []));
            var right := Table(["k", "n"], Store([LongType, LongType], [[Long(1), Long(7)]]));
            StoredRow(conv, left, right, ["k"], RightOnly(0))[1] == Long(7)
  {
    var left := Table(["k", "n"], Store([LongType, LongType], []));
    var right := Table(["k", "n"], Store([LongType, LongType], [[Long(1), Long(7)]]));
    StoredCell(conv, left, right, ["k"], RightOnly(0), 1);
    assert IndexOf(right.names, "n") == Some(1);
  }

  // ---- the executor ----

  datatype JoinResult = Rows(rows: seq<Row>) | LacksLeft(name: string) | LacksRight(name: string)

  /** The first USING name that one of the tables lacks, left before right. */
  function Lack(left: Table, right: Table, using: seq<string>): (e: Option<JoinResult>)
    ensures e.None? <==> forall i :: 0 <= i < |using| ==> using[i] in left.names && using[i] in right.names
  {
    if using == [] then None
    else
      var front := Lack(left, right, using[..|using| - 1]);
      var name := using[|using| - 1];
      if front.Some? then front
      else if name !in left.names then Some(LacksLeft(name))
      else if name !in right.names then Some(LacksRight(name)) else None
  }

  predicate Usable(left: Table, right: Table, using: seq<string>) {
    forall i :: 0 <= i < |using| ==> using[i] in left.names && using[i] in right.names
  }

  ghost function PairsOf(left: Table, right: Table, kind: JoinKind, using: seq<string>): seq<Pair>
    requires Usable(left, right, using)
    requires kind.AsOf? ==> kind.timeColumn in left.names && kind.timeColumn in right.names
  {
    var nl, nr := |left.store.rows|, |right.store.rows|;
    var leftCols, rightCols := ColumnsFor(left.names, using), ColumnsFor(right.names, using);
    if kind.AsOf? then
      Concat(nl, PickOf(TimesOf(left, right, leftCols, rightCols, IndexOf(left.names, kind.timeColumn).value,
                                IndexOf(right.names, kind.timeColumn).value), nr))
    else
      NestedLoop(nl, nr, OnKeys(KeyOfRow(left.store.rows, leftCols), KeyOfRow(right.store.rows, rightCols)),
                 kind.KeepsLeft(), kind.KeepsRight())
  }

  method ExecuteJoin(conv: Topics.Conversions, left: Table, right: Table, kind: JoinKind, using: seq<string>)
    returns (res: JoinResult)
    ensures !Usable(left, right, using) ==> Some(res) == Lack(left, right, using)
    ensures Usable(left, right, using) && kind.AsOf? && kind.timeColumn !in right.names ==>
              res == LacksRight(kind.timeColumn)
    ensures Usable(left, right, using) && kind.AsOf? && kind.timeColumn in right.names
            && kind.timeColumn !in left.names ==>
              res == LacksLeft(kind.timeColumn)
    ensures Usable(left, right, using)
            && (kind.AsOf? ==> kind.timeColumn in left.names && kind.timeColumn in right.names) ==>
              var pairs := PairsOf(left, right, kind, using);
              res == Rows(seq(|pairs|, i requires 0 <= i < |pairs| => StoredRow(conv, left, right, using, pairs[i])))
  {
    var lack := Lack(left, right, using);
    if lack.Some? { return lack.value; }
    var leftCols, rightCols := ColumnsFor(left.names, using), ColumnsFor(right.names, using);
    var nl, nr := |left.store.rows|, |right.store.rows|;
    var leftKeys := RowKeys(left.store.rows, leftCols);
    var rightKeys := RowKeys(right.store.rows, rightCols);
    var pairs;
    if kind.AsOf? {
      var rightTime := IndexOf(right.names, kind.timeColumn);
      if rightTime.None? { return LacksRight(kind.timeColumn); }
      var leftTime := IndexOf(left.names, kind.timeColumn);
      if leftTime.None? { return LacksLeft(kind.timeColumn); }
      pairs := AsOfJoin(TimesWith(At(leftKeys), At(rightKeys), left, right, leftTime.value, rightTime.value), nl, nr);
    } else {
      pairs := HashJoin(nl, nr, At(leftKeys), At(rightKeys), kind.KeepsLeft(), kind.KeepsRight());
    }
    return Rows(seq(|pairs|, i requires 0 <= i < |pairs| => StoredRow(conv, left, right, using, pairs[i])));
  }

  // ---- equality of cells instead of keys ----

  /** Rows join when their USING cells meet. */
  ghost function OnCells(left: Table, right: Table, leftCols: seq<nat>, rightCols: seq<nat>): (nat, nat) -> bool
    requires left.Valid() && right.Valid()
    requires forall i :: 0 <= i < |leftCols| ==> leftCols[i] < |left.names|
    requires forall i :: 0 <= i < |rightCols| ==> rightCols[i] < |right.names|
  {
    (l: nat, r: nat) =>
      l < |left.store.rows| && r < |right.store.rows| &&
      AllMeet(UsingCells(left, leftCols, l), UsingCells(right, rightCols, r))
  }

  ghost predicate InRange(t: Table, cols: seq<nat>) { forall i :: 0 <= i < |cols| ==> cols[i] < |t.names| }

  /** No USING cells of a left row can be mistaken for those of a right row. */
  ghost predicate TablesClear(left: Table, right: Table, leftCols: seq<nat>, rightCols: seq<nat>)
    requires left.Valid() && right.Valid() && InRange(left, leftCols) && InRange(right, rightCols)
    requires |leftCols| == |rightCols|
  {
    forall l: nat, r: nat :: l < |left.store.rows| && r < |right.store.rows| ==>
      Clear(UsingCells(left, leftCols, l), UsingCells(right, rightCols, r))
  }

  lemma KeyIsText(t: Table, cols: seq<nat>, r: nat)
    requires t.Valid() && InRange(t, cols) && r < |t.store.rows|
    ensures KeyOfRow(t.store.rows, cols)(r) == KeyText(UsingCells(t, cols, r))
  {
    assert RowTyped(t.store.types, t.store.rows[r]);
  }

  lemma KeysAreCells(left: Table, right: Table, leftCols: seq<nat>, rightCols: seq<nat>)
    requires left.Valid() && right.Valid() && InRange(left, leftCols) && InRange(right, rightCols)
    requires |leftCols| == |rightCols| && TablesClear(left, right, leftCols, rightCols)
    ensures SameOn(|left.store.rows|, |right.store.rows|,
                   OnKeys(KeyOfRow(left.store.rows, leftCols), KeyOfRow(right.store.rows, rightCols)),
                   OnCells(left, right, leftCols, rightCols))
  {
    var onKeys := OnKeys(KeyOfRow(left.store.rows, leftCols), KeyOfRow(right.store.rows, rightCols));
    var onCells := OnCells(left, right, leftCols, rightCols);
    forall l: nat, r: nat | l < |left.store.rows| && r < |right.store.rows| ensures onKeys(l, r) <==> onCells(l, r) {
      KeyIsText(left, leftCols, l);
      KeyIsText(right, rightCols, r);
      KeysMatch(UsingCells(left, leftCols, l), UsingCells(right, rightCols, r));
    }
  }

  /** The join is the nested-loop join on cells that meet. */
  ghost predicate JoinsCells(left: Table, right: Table, kind: JoinKind, using: seq<string>)
    requires left.Valid() && right.Valid() && Usable(left, right, using) && !kind.AsOf?
  {
    PairsOf(left, right, kind, using) ==
    NestedLoop(|left.store.rows|, |right.store.rows|,
               OnCells(left, right, ColumnsFor(left.names, using), ColumnsFor(right.names, using)),
               kind.KeepsLeft(), kind.KeepsRight())
  }

  /**
   With clear tables the hash join is the nested-loop join on cells that meet, for
   all four kinds and any column types.
   */
  lemma HashJoinIsNestedLoop(left: Table, right: Table, kind: JoinKind, using: seq<string>)
    requires left.Valid() && right.Valid() && Usable(left, right, using) && !kind.AsOf?
    requires TablesClear(left, right, ColumnsFor(left.names, using), ColumnsFor(right.names, using))
    ensures JoinsCells(left, right, kind, using)
  {
    var leftCols, rightCols := ColumnsFor(left.names, using), ColumnsFor(right.names, using);
    KeysAreCells(left, right, leftCols, rightCols);
    NestedLoopCongruent(|left.store.rows|, |right.store.rows|,
                        OnKeys(KeyOfRow(left.store.rows, leftCols), KeyOfRow(right.store.rows, rightCols)),
                        OnCells(left, right, leftCols, rightCols), kind.KeepsLeft(), kind.KeepsRight());
  }

  // ---- which schemas join rightly whatever the rows ----

  /** The names and types of a table. */
  datatype Schema = Schema(names: seq<string>, types: seq<ColumnType>) {
    predicate Valid() { |names| == |types| }

    function With(rows: seq<Row>): Table { Table(names, Store(types, rows)) }
  }

  function TypesAt(s: Schema, cols: seq<nat>): seq<ColumnType>
    requires s.Valid() && forall i :: 0 <= i < |cols| ==> cols[i] < |s.names|
  {
    seq(|cols|, i requires 0 <= i < |cols| => s.types[cols[i]])
  }

  predicate AllTyped(s: Schema, rows: seq<Row>) { forall r :: 0 <= r < |rows| ==> RowTyped(s.types, rows[r]) }

  predicate Shared(left: Schema, right: Schema, using: seq<string>) {
    left.Valid() && right.Valid() && forall i :: 0 <= i < |using| ==> using[i] in left.names && using[i] in right.names
  }

  ghost predicate AlwaysJoinsCells(left: Schema, right: Schema, kind: JoinKind, using: seq<string>)
    requires Shared(left, right, using) && !kind.AsOf?
  {
    forall lrows, rrows :: AllTyped(left, lrows) && AllTyped(right, rrows) ==>
      JoinsCells(left.With(lrows), right.With(rrows), kind, using)
  }

  /** A row with given cells in given columns, nulls elsewhere. */
  ghost function RowWith(types: seq<ColumnType>, cols: seq<nat>, cells: seq<Value>): (row: Row)
    requires |cols| == |cells| && forall i :: 0 <= i < |cols| ==> cols[i] < |types| && cells[i].HasType(types[cols[i]])
    ensures RowTyped(types, row)
    ensures Tied(cols, cells) ==> CellsOf(row, cols) == cells
  {
    var row := seq(|types|, c requires 0 <= c < |types| =>
      if i :| 0 <= i < |cols| && cols[i] == c then cells[i] else NullOf(types[c]));
    row
  }

  /** Two rows with one key that do not meet join, and should not. */
  lemma CollisionJoins(left: Table, right: Table, kind: JoinKind, using: seq<string>, l: nat, r: nat)
    requires left.Valid() && right.Valid() && Usable(left, right, using) && !kind.AsOf?
    requires l < |left.store.rows| && r < |right.store.rows|
    requires var a, b := UsingCells(left, ColumnsFor(left.names, using), l),
                 UsingCells(right, ColumnsFor(right.names, using), r);
             KeyText(a).Some? && KeyText(a) == KeyText(b) && !AllMeet(a, b)
    ensures !JoinsCells(left, right, kind, using)
  {
    var leftCols, rightCols := ColumnsFor(left.names, using), ColumnsFor(right.names, using);
    var nl, nr := |left.store.rows|, |right.store.rows|;
    KeyIsText(left, leftCols, l);
    KeyIsText(right, rightCols, r);
    NestedLoopAre(nl, nr, OnKeys(KeyOfRow(left.store.rows, leftCols), KeyOfRow(right.store.rows, rightCols)),
                  kind.KeepsLeft(), kind.KeepsRight(), Both(l, r));
    NestedLoopAre(nl, nr, OnCells(left, right, leftCols, rightCols), kind.KeepsLeft(), kind.KeepsRight(), Both(l, r));
  }

  /** One name, one column; one column, one name. */
  lemma UsingTied<T>(names: seq<string>, using: seq<string>, xs: seq<T>)
    requires (forall i :: 0 <= i < |using| ==> using[i] in names) && |xs| == |using|
    ensures Tied(using, xs) <==> Tied(ColumnsFor(names, using), xs)
  {
    var cols := ColumnsFor(names, using);
    forall i, j | 0 <= i < |using| && 0 <= j < |using| ensures using[i] == using[j] <==> cols[i] == cols[j] {
      assert names[cols[i]] == using[i] && names[cols[j]] == using[j];
    }
  }

  lemma TypesTied(s: Schema, using: seq<string>)
    requires s.Valid() && forall i :: 0 <= i < |using| ==> using[i] in s.names
    ensures Tied(using, TypesAt(s, ColumnsFor(s.names, using)))
  {
    UsingTied(s.names, using, TypesAt(s, ColumnsFor(s.names, using)));
  }

  lemma CellsTied(t: Table, using: seq<string>, r: nat)
    requires t.Valid() && r < |t.store.rows| && forall i :: 0 <= i < |using| ==> using[i] in t.names
    ensures Tied(using, UsingCells(t, ColumnsFor(t.names, using), r))
  {
    UsingTied(t.names, using, UsingCells(t, ColumnsFor(t.names, using), r));
  }

  lemma OneRowCells(s: Schema, using: seq<string>, cells: seq<Value>) returns (row: Row)
    requires s.Valid() && forall i :: 0 <= i < |using| ==> using[i] in s.names
    requires Typed(cells, TypesAt(s, ColumnsFor(s.names, using))) && Tied(using, cells)
    ensures AllTyped(s, [row]) && s.With([row]).Valid()
    ensures UsingCells(s.With([row]), ColumnsFor(s.names, using), 0) == cells
  {
    UsingTied(s.names, using, cells);
    row := RowWith(s.types, ColumnsFor(s.names, using), cells);
  }

  /** Crossed string columns: some rows join that should not. */
  lemma CrossedJoinsWrongly(left: Schema, right: Schema, kind: JoinKind, using: seq<string>, i: nat, j: nat)
    requires Shared(left, right, using) && !kind.AsOf?
    requires var l, r := TypesAt(left, ColumnsFor(left.names, using)), TypesAt(right, ColumnsFor(right.names, using));
             Crossed(using, l, r, i, j) && !NeverJoins(l, r)
    ensures !AlwaysJoinsCells(left, right, kind, using)
  {
    var leftCols, rightCols := ColumnsFor(left.names, using), ColumnsFor(right.names, using);
    TypesTied(left, using);
    TypesTied(right, using);
    var a, b := CrossedCollide(using, TypesAt(left, leftCols), TypesAt(right, rightCols), i, j);
    var x := OneRowCells(left, using, a);
    var y := OneRowCells(right, using, b);
    CollisionJoins(left.With([x]), right.With([y]), kind, using, 0, 0);
  }

  lemma UncrossedTablesClear(left: Schema, right: Schema, using: seq<string>, lrows: seq<Row>, rrows: seq<Row>)
    requires Shared(left, right, using) && AllTyped(left, lrows) && AllTyped(right, rrows)
    requires var l, r := TypesAt(left, ColumnsFor(left.names, using)), TypesAt(right, ColumnsFor(right.names, using));
             NeverJoins(l, r) || Uncrossed(using, l, r)
    ensures TablesClear(left.With(lrows), right.With(rrows), ColumnsFor(left.names, using),
                        ColumnsFor(right.names, using))
  {
    var leftCols, rightCols := ColumnsFor(left.names, using), ColumnsFor(right.names, using);
    forall l: nat, r: nat | l < |lrows| && r < |rrows|
      ensures Clear(UsingCells(left.With(lrows), leftCols, l), UsingCells(right.With(rrows), rightCols, r))
    {
      CellsTied(left.With(lrows), using, l);
      CellsTied(right.With(rrows), using, r);
      UncrossedIsClear(using, TypesAt(left, leftCols), TypesAt(right, rightCols),
                       UsingCells(left.With(lrows), leftCols, l), UsingCells(right.With(rrows), rightCols, r));
    }
  }

  /**
   Whatever the rows, the hash join of two tables is the nested-loop join on cells
   that meet, if and only if no string USING column of one faces a string column of
   another name in the other, or some USING column never joins.
   */
  lemma SchemasJoinExactly(left: Schema, right: Schema, kind: JoinKind, using: seq<string>)
    requires Shared(left, right, using) && !kind.AsOf?
    ensures var l, r := TypesAt(left, ColumnsFor(left.names, using)), TypesAt(right, ColumnsFor(right.names, using));
            AlwaysJoinsCells(left, right, kind, using) <==> NeverJoins(l, r) || Uncrossed(using, l, r)
  {
    var l, r := TypesAt(left, ColumnsFor(left.names, using)), TypesAt(right, ColumnsFor(right.names, using));
    if NeverJoins(l, r) || Uncrossed(using, l, r) {
      forall lrows, rrows | AllTyped(left, lrows) && AllTyped(right, rrows)
        ensures JoinsCells(left.With(lrows), right.With(rrows), kind, using)
      {
        UncrossedTablesClear(left, right, using, lrows, rrows);
        HashJoinIsNestedLoop(left.With(lrows), right.With(rrows), kind, using);
      }
    } else {
      var i: nat, j: nat :| Crossed(using, l, r, i, j);
      CrossedJoinsWrongly(left, right, kind, using, i, j);
    }
  }

  /**
   An AS OF candidate joins on cells that meet and has a non-null time at or before the
   left row's, itself not null.
   */
  lemma AsOfCandidates(left: Table, right: Table, leftCols: seq<nat>, rightCols: seq<nat>, leftTime: nat,
                       rightTime: nat,
                       l: nat, r: nat)
    requires left.Valid() && right.Valid() && InRange(left, leftCols) && InRange(right, rightCols)
    requires |leftCols| == |rightCols| && l < |left.store.rows| && r < |right.store.rows|
    requires Clear(UsingCells(left, leftCols, l), UsingCells(right, rightCols, r))
    ensures TimesOf(left, right, leftCols, rightCols, leftTime, rightTime).Candidate(l, r) <==>
            var a, b := TimeAt(left.store.rows, leftTime, l), TimeAt(right.store.rows, rightTime, r);
            OnCells(left, right, leftCols, rightCols)(l, r) && a.Some? && b.Some? && b.value <= a.value
  {
    KeyIsText(left, leftCols, l);
    KeyIsText(right, rightCols, r);
    KeysMatch(UsingCells(left, leftCols, l), UsingCells(right, rightCols, r));
  }
}
