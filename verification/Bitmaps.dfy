/** Row bitmaps: sets of row numbers, iterated in ascending order. */
module Bitmaps {

  type RowSet = set<nat>

  ghost predicate StrictlyUp(s: seq<nat>) { forall i, j :: 0 <= i < j < |s| ==> s[i] < s[j] }

  function Max(s: RowSet): (m: nat)
    requires s != {}
    ensures m in s && forall x: nat :: x in s ==> x <= m
  {
    MaxExists(s);
    var m :| m in s && forall x: nat :: x in s ==> x <= m;
    m
  }

  lemma {:induction false} MaxExists(s: RowSet)
    requires s != {}
    ensures exists m :: m in s && forall x: nat :: x in s ==> x <= m
  {
    var a :| a in s;
    var rest := s - {a};
    assert forall x: nat :: x in s ==> x in rest || x == a;
    if rest != {} {
      MaxExists(rest);
      var b :| b in rest && forall x: nat :: x in rest ==> x <= b;
      var m := if a <= b then b else a;
      assert m in s;
    }
  }

  /** A listing of the rest, then the greatest. */
  lemma AppendGreatest(s: RowSet, m: nat, front: seq<nat>)
    requires m in s && (forall x: nat :: x in s ==> x <= m)
    requires StrictlyUp(front) && forall x: nat :: x in front <==> x in s - {m}
    ensures StrictlyUp(front + [m]) && forall x: nat :: x in front + [m] <==> x in s
  {
    assert forall i :: 0 <= i < |front| ==> front[i] in front;
  }

  function Ascending(s: RowSet): (r: seq<nat>)
    ensures forall x: nat :: x in r <==> x in s
    ensures StrictlyUp(r)
    ensures |r| == |s|
  {
    if s == {} then []
    else
      var m := Max(s);
      var front := Ascending(s - {m});
      AppendGreatest(s, m, front);
      front + [m]
  }

  function UpTo(n: nat): (r: seq<nat>)
    ensures StrictlyUp(r) && |r| == n && forall x: nat :: x in r <==> x < n
  {
    if n == 0 then [] else
      var front := UpTo(n - 1);
      assert forall i :: 0 <= i < |front| ==> front[i] in front;
      front + [n - 1]
  }

  /** An ascending sequence is determined by its elements. */
  lemma {:induction false} AscendingUnique(a: seq<nat>, b: seq<nat>)
    requires StrictlyUp(a) && StrictlyUp(b) && forall x: nat :: x in a <==> x in b
    ensures a == b
  {
    assert a == [] <==> b == [] by {
      if a != [] { assert a[0] in a; }
      if b != [] { assert b[0] in b; }
    }
    if a != [] {
      var x, y := a[|a| - 1], b[|b| - 1];
      assert x in b && y in a;
      assert x == y;
      var a', b' := a[..|a| - 1], b[..|b| - 1];
      forall z: nat ensures z in a' <==> z in b' {
        LastIsGreatest(a, z);
        LastIsGreatest(b, z);
      }
      AscendingUnique(a', b');
      assert a == a' + [x] && b == b' + [y];
    }
  }

  lemma LastIsGreatest(a: seq<nat>, z: nat)
    requires StrictlyUp(a) && a != []
    ensures z in a[..|a| - 1] <==> z in a && z != a[|a| - 1]
  {
    if z in a && z != a[|a| - 1] {
      var i :| 0 <= i < |a| && a[i] == z;
      assert a[..|a| - 1][i] == z;
    }
  }

  /** Two ascending sequences that share their greatest element, less that element. */
  lemma SharedLast(a: seq<nat>, b: seq<nat>) returns (a': seq<nat>, b': seq<nat>)
    requires StrictlyUp(a) && StrictlyUp(b) && b != [] && b[|b| - 1] in a && forall x: nat :: x in a ==> x in b
    ensures StrictlyUp(a') && StrictlyUp(b') && forall x: nat :: x in a' ==> x in b'
    ensures a == a' + [b[|b| - 1]] && b == b' + [b[|b| - 1]]
  {
    assert a[|a| - 1] in a;
    a', b' := a[..|a| - 1], b[..|b| - 1];
    forall z: nat | z in a' ensures z in b' {
      LastIsGreatest(a, z);
      LastIsGreatest(b, z);
    }
  }

  /** An ascending part of an ascending sequence is no longer, and as long only if it is the whole. */
  lemma {:induction false} AscendingPart(a: seq<nat>, b: seq<nat>)
    requires StrictlyUp(a) && StrictlyUp(b) && forall x: nat :: x in a ==> x in b
    ensures |a| <= |b| && (|a| == |b| ==> a == b)
    decreases |b|
  {
    assert a != [] ==> a[0] in a;
    if b != [] {
      if b[|b| - 1] in a {
        var a', b' := SharedLast(a, b);
        AscendingPart(a', b');
      } else {
        var b' := b[..|b| - 1];
        forall z: nat | z in a ensures z in b' { LastIsGreatest(b, z); }
        AscendingPart(a, b');
      }
    }
  }

  lemma AscendingSubset(a: seq<nat>, b: seq<nat>)
    requires StrictlyUp(a) && StrictlyUp(b) && forall x: nat :: x in a ==> x in b
    ensures |a| <= |b| && (|a| == |b| <==> a == b)
    ensures a == b <==> forall x: nat :: x in b ==> x in a
  {
    AscendingPart(a, b);
    if forall x: nat :: x in b ==> x in a { AscendingUnique(a, b); }
  }
}
