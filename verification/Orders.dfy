/**
 Comparison results, the lexicographic order of strings, and the sorting
 routines of the standard library (a stable sort; sort followed by dedup),
 each with what its callers rely on.
 */
module Orders {

  datatype Ordering = Less | Equal | Greater {
    function Reverse(): Ordering {
      match this case Less => Greater case Equal => Equal case Greater => Less
    }
  }

  function CompareInt(a: int, b: int): Ordering {
    if a < b then Less else if a == b then Equal else Greater
  }

  /** `str::cmp`: by code point, a proper prefix first. */
  function CompareString(a: string, b: string): Ordering {
    if a == [] then (if b == [] then Equal else Less)
    else if b == [] then Greater
    else if a[0] != b[0] then (if a[0] < b[0] then Less else Greater)
    else CompareString(a[1..], b[1..])
  }

  lemma {:induction false} CompareStringAntisymmetric(a: string, b: string)
    ensures CompareString(b, a) == CompareString(a, b).Reverse()
    ensures CompareString(a, b) == Equal <==> a == b
  {
    if a != [] && b != [] && a[0] == b[0] {
      CompareStringAntisymmetric(a[1..], b[1..]);
      assert a == [a[0]] + a[1..] && b == [b[0]] + b[1..];
    }
  }

  lemma {:induction false} CompareStringTransitive(a: string, b: string, c: string)
    requires CompareString(a, b) != Greater && CompareString(b, c) != Greater
    ensures CompareString(a, c) != Greater
  {
    if a != [] && b != [] && c != [] && a[0] == b[0] == c[0] {
      CompareStringTransitive(a[1..], b[1..], c[1..]);
    }
  }

  predicate StringLe(a: string, b: string) { CompareString(a, b) != Greater }

  // ---- relations ----

  ghost predicate TotalPreorder<T(!new)>(le: (T, T) -> bool) {
    && (forall x, y :: le(x, y) || le(y, x))
    && (forall x, y, z :: le(x, y) && le(y, z) ==> le(x, z))
  }

  ghost predicate TotalOrder<T(!new)>(le: (T, T) -> bool) {
    TotalPreorder(le) && forall x, y :: le(x, y) && le(y, x) ==> x == y
  }

  lemma StringLeIsTotalOrder()
    ensures TotalOrder(StringLe)
  {
    forall x, y ensures (StringLe(x, y) || StringLe(y, x)) && (StringLe(x, y) && StringLe(y, x) ==> x == y) {
      CompareStringAntisymmetric(x, y);
    }
    forall x, y, z | StringLe(x, y) && StringLe(y, z) ensures StringLe(x, z) {
      CompareStringTransitive(x, y, z);
    }
  }

  predicate NatLe(a: nat, b: nat) { a <= b }

  // ---- stable sort ----

  /** Insert `x` after every element that is not greater than it. */
  function Insert<T>(s: seq<T>, x: T, le: (T, T) -> bool): (r: seq<T>)
    ensures |r| == |s| + 1 && multiset(r) == multiset(s) + multiset{x}
  {
    if s == [] || le(s[|s| - 1], x) then s + [x]
    else
      assert s == s[..|s| - 1] + [s[|s| - 1]];
      Insert(s[..|s| - 1], x, le) + [s[|s| - 1]]
  }

  /** `slice::sort_by`: elements that compare equal keep their relative order. */
  function StableSort<T>(s: seq<T>, le: (T, T) -> bool): (r: seq<T>)
    ensures |r| == |s| && multiset(r) == multiset(s)
  {
    if s == [] then []
    else
      assert s == s[..|s| - 1] + [s[|s| - 1]];
      Insert(StableSort(s[..|s| - 1], le), s[|s| - 1], le)
  }

  /** Strictly before under `le`, or equivalent and before under `tie`. */
  ghost predicate Before<T>(le: (T, T) -> bool, tie: (T, T) -> bool, x: T, y: T) {
    !le(y, x) || (le(x, y) && tie(x, y))
  }

  ghost predicate Ascends<T>(before: (T, T) -> bool, s: seq<T>) {
    forall i, j :: 0 <= i < j < |s| ==> before(s[i], s[j])
  }

  ghost predicate AscendsBy<T>(le: (T, T) -> bool, tie: (T, T) -> bool, s: seq<T>) {
    forall i, j :: 0 <= i < j < |s| ==> Before(le, tie, s[i], s[j])
  }

  /** A total preorder among the elements of a sequence. */
  ghost predicate PreorderOn<T(!new)>(le: (T, T) -> bool, s: seq<T>) {
    && (forall x, y :: x in s && y in s ==> le(x, y) || le(y, x))
    && (forall x, y, z :: x in s && y in s && z in s && le(x, y) && le(y, z) ==> le(x, z))
  }

  lemma {:induction false} InsertAscends<T(!new)>(s: seq<T>, x: T, le: (T, T) -> bool, tie: (T, T) -> bool)
    requires PreorderOn(le, s + [x]) && AscendsBy(le, tie, s)
    requires forall y :: y in s ==> tie(y, x)
    ensures AscendsBy(le, tie, Insert(s, x, le))
  {
    assert x in s + [x] && forall y :: y in s ==> y in s + [x];
    if s == [] {
    } else if le(s[|s| - 1], x) {
      forall i | 0 <= i < |s| ensures Before(le, tie, s[i], x) {
        assert s[i] in s && s[|s| - 1] in s;
        assert le(s[i], s[|s| - 1]);
      }
    } else {
      var front, last := s[..|s| - 1], s[|s| - 1];
      assert forall y :: y in front + [x] ==> y in s + [x];
      InsertAscends(front, x, le, tie);
      var r := Insert(front, x, le);
      forall i | 0 <= i < |r| ensures Before(le, tie, r[i], last) {
        assert r[i] in multiset(r);
        if r[i] != x {
          assert r[i] in multiset(front);
          assert r[i] in front;
        }
      }
    }
  }

  /**
   The sorted sequence ascends under `le`, and within a tie class under `tie`,
   whenever the input ascends under `tie`.
   */
  lemma {:induction false} StableSortAscends<T(!new)>(s: seq<T>, le: (T, T) -> bool, tie: (T, T) -> bool)
    requires PreorderOn(le, s) && Ascends(tie, s)
    ensures AscendsBy(le, tie, StableSort(s, le))
  {
    if s != [] {
      var front, last := s[..|s| - 1], s[|s| - 1];
      assert forall y :: y in front ==> y in s;
      StableSortAscends(front, le, tie);
      var r := StableSort(front, le);
      forall y | y in r + [last] ensures y in s && (y in r ==> tie(y, last)) {
        if y in r {
          assert y in multiset(r);
          assert y in multiset(front);
          var i :| 0 <= i < |front| && front[i] == y;
          assert s[i] == y && s[|s| - 1] == last;
        }
      }
      InsertAscends(r, last, le, tie);
    }
  }

  lemma SortKeepsElements<T>(s: seq<T>, le: (T, T) -> bool, x: T)
    ensures x in StableSort(s, le) <==> x in s
  {
    assert x in multiset(StableSort(s, le)) <==> x in multiset(s);
  }

  // ---- sort, then dedup ----

  ghost predicate StrictlyAscending<T>(le: (T, T) -> bool, s: seq<T>) {
    forall i, j :: 0 <= i < j < |s| ==> le(s[i], s[j]) && s[i] != s[j]
  }

  /** `Vec::dedup`: drop every element equal to the one kept before it. */
  method Dedup<T(==)>(s: seq<T>) returns (r: seq<T>)
    ensures forall x :: x in r <==> x in s
    ensures forall le: (T, T) -> bool :: Sorted(le, s) && AntisymmetricOn(le, s) ==> StrictlyAscending(le, r)
  {
    r := [];
    ghost var at: seq<nat> := [];
    for i := 0 to |s|
      invariant |at| == |r|
      invariant forall k :: 0 <= k < |r| ==> at[k] < i && r[k] == s[at[k]]
      invariant forall k, l :: 0 <= k < l < |r| ==> at[k] < at[l]
      invariant forall k :: 0 < k < |r| ==> at[k] > 0 && s[at[k]] != s[at[k] - 1]
      invariant i > 0 ==> |r| > 0 && r[|r| - 1] == s[i - 1]
      invariant forall x :: x in r <==> x in s[..i]
    {
      if r == [] || r[|r| - 1] != s[i] {
        r := r + [s[i]];
        at := at + [i];
      }
      assert s[..i + 1] == s[..i] + [s[i]];
    }
    assert s[..|s|] == s;
    forall le: (T, T) -> bool | Sorted(le, s) && AntisymmetricOn(le, s) ensures StrictlyAscending(le, r) {
      forall k, l | 0 <= k < l < |r| ensures le(r[k], r[l]) && r[k] != r[l] {
        var i, j := at[k], at[l];
        assert le(s[i], s[j]);
        assert j > 0 && s[j] != s[j - 1];
      }
    }
  }

  ghost predicate Sorted<T>(le: (T, T) -> bool, s: seq<T>) {
    forall i, j :: 0 <= i < j < |s| ==> le(s[i], s[j])
  }

  ghost predicate AntisymmetricOn<T>(le: (T, T) -> bool, s: seq<T>) {
    forall i, j :: 0 <= i < |s| && 0 <= j < |s| && le(s[i], s[j]) && le(s[j], s[i]) ==> s[i] == s[j]
  }

  /** `sort` followed by `dedup`: the same elements, each once, in order. */
  method SortDedup<T(==, !new)>(s: seq<T>, le: (T, T) -> bool) returns (r: seq<T>)
    requires TotalOrder(le)
    ensures forall x :: x in r <==> x in s
    ensures StrictlyAscending(le, r)
  {
    var sorted := StableSort(s, le);
    StableSortAscends(s, le, (x, y) => true);
    forall x ensures x in sorted <==> x in s { SortKeepsElements(s, le, x); }
    forall i, j | 0 <= i < j < |sorted| ensures le(sorted[i], sorted[j]) {
      assert Before(le, (x, y) => true, sorted[i], sorted[j]);
    }
    r := Dedup(sorted);
  }
}
