/**
 The text under which rows meet in a hash join: the USING cells of a row, as
 text, separated by U+001F.
 */
module JoinKeys {
  import opened Wrappers
  import opened Float64
  import opened Values

  const SEP: char := 31 as char

  // ---- decimal text ----

  function Digit(d: nat): char
    requires d < 10
  {
    ('0' as int + d) as char
  }

  function Digits(n: nat): (s: string)
    ensures s != []
  {
    if n < 10 then [Digit(n)] else Digits(n / 10) + [Digit(n % 10)]
  }

  function Decimal(n: int): string { if n < 0 then ['-'] + Digits(-n) else Digits(n) }

  predicate IsDigit(c: char) { '0' <= c <= '9' }

  lemma {:induction false} DigitsAre(n: nat, i: nat)
    requires i < |Digits(n)|
    ensures IsDigit(Digits(n)[i])
  {
    if n >= 10 && i < |Digits(n / 10)| { DigitsAre(n / 10, i); }
  }

  lemma {:induction false} DigitsInjective(a: nat, b: nat)
    requires Digits(a) == Digits(b)
    ensures a == b
  {
    var s, t := Digits(a), Digits(b);
    if a >= 10 && b >= 10 {
      assert s == Digits(a / 10) + [Digit(a % 10)] && t == Digits(b / 10) + [Digit(b % 10)];
      assert s[..|s| - 1] == Digits(a / 10) && t[..|t| - 1] == Digits(b / 10);
      DigitsInjective(a / 10, b / 10);
      assert s[|s| - 1] == Digit(a % 10) && t[|t| - 1] == Digit(b % 10);
    }
  }

  lemma DecimalInjective(a: int, b: int)
    requires Decimal(a) == Decimal(b)
    ensures a == b
  {
    var s, t := Decimal(a), Decimal(b);
    if a < 0 && b < 0 {
      assert s[1..] == Digits(-a) && t[1..] == Digits(-b);
      DigitsInjective(-a, -b);
    } else if a >= 0 && b >= 0 {
      DigitsInjective(a, b);
    } else if a < 0 {
      assert t[0] == '-';
      DigitsAre(b, 0);
    } else {
      assert s[0] == '-';
      DigitsAre(a, 0);
    }
  }

  lemma DecimalHasNoSeparator(n: int)
    ensures SEP !in Decimal(n)
  {
    var d := Digits(if n < 0 then -n else n);
    forall i | 0 <= i < |d| ensures d[i] != SEP { DigitsAre(if n < 0 then -n else n, i); }
  }

  // ---- joined text ----

  function Joined(fields: seq<string>): string {
    if fields == [] then ""
    else if |fields| == 1 then fields[0]
    else Joined(fields[..|fields| - 1]) + [SEP] + fields[|fields| - 1]
  }

  lemma JoinedSnoc(fields: seq<string>, x: string)
    ensures Joined(fields + [x]) == if fields == [] then x else Joined(fields) + [SEP] + x
  {
    var all := fields + [x];
    assert all[..|all| - 1] == fields && all[|all| - 1] == x;
  }

  lemma {:induction false} JoinedSplit(a: seq<string>, b: seq<string>)
    requires a != [] && b != []
    ensures Joined(a + b) == Joined(a) + [SEP] + Joined(b)
  {
    var front, x := b[..|b| - 1], b[|b| - 1];
    assert a + b == (a + front) + [x] && b == front + [x];
    JoinedSnoc(a + front, x);
    JoinedSnoc(front, x);
    if front == [] {
      assert a + front == a;
    } else {
      JoinedSplit(a, front);
    }
  }

  // ---- counting separators ----

  ghost function Separators(s: string): nat { multiset(s)[SEP] }

  ghost function InFields(fields: seq<string>): nat {
    if fields == [] then 0 else InFields(fields[..|fields| - 1]) + Separators(fields[|fields| - 1])
  }

  /** The joined text holds the separators of the fields and those between them. */
  lemma {:induction false} SeparatorsAdd(fields: seq<string>)
    requires fields != []
    ensures Separators(Joined(fields)) == InFields(fields) + |fields| - 1
  {
    var front, x := fields[..|fields| - 1], fields[|fields| - 1];
    if front == [] {
      assert fields == [x];
    } else {
      SeparatorsAdd(front);
    }
  }

  /** Text that ends in two ways after a separator, both ends with as many separators, ends in one way. */
  lemma LastSplit(u: string, x: string, v: string, y: string)
    requires Separators(x) == Separators(y) && u + [SEP] + x == v + [SEP] + y
    ensures x == y && u == v
  {
    if |x| < |y| {
      EndsWithin(u, x, v, y);
    } else if |y| < |x| {
      EndsWithin(v, y, u, x);
    } else {
      var l, r := u + [SEP] + x, v + [SEP] + y;
      assert l[..|u|] == u && r[..|v|] == v;
      assert l[|u| + 1..] == x && r[|v| + 1..] == y;
    }
  }

  lemma EndsWithin(u: string, x: string, v: string, y: string)
    requires |x| < |y| && u + [SEP] + x == v + [SEP] + y
    ensures Separators(x) < Separators(y)
  {
    var l, r, rest := u + [SEP] + x, v + [SEP] + y, y[..|y| - |x| - 1];
    assert y == r[|v| + 1..] && [SEP] + x == l[|u|..];
    assert y == rest + ([SEP] + x);
  }

  /** Fields with as many separators one by one are determined by the joined text. */
  lemma {:induction false} JoinedInjective(a: seq<string>, b: seq<string>)
    requires |a| == |b| && (forall i :: 0 <= i < |a| ==> Separators(a[i]) == Separators(b[i])) && Joined(a) == Joined(b)
    ensures a == b
  {
    var n := |a|;
    if n >= 2 {
      LastSplit(Joined(a[..n - 1]), a[n - 1], Joined(b[..n - 1]), b[n - 1]);
      JoinedInjective(a[..n - 1], b[..n - 1]);
      assert a == a[..n - 1] + [a[n - 1]] && b == b[..n - 1] + [b[n - 1]];
    }
  }

  lemma {:induction false} FewerInFields(a: seq<string>, b: seq<string>)
    requires |a| == |b| && forall i :: 0 <= i < |a| ==> Separators(a[i]) <= Separators(b[i])
    ensures InFields(a) <= InFields(b)
    ensures InFields(a) == InFields(b) ==> forall i :: 0 <= i < |a| ==> Separators(a[i]) == Separators(b[i])
  {
    if a != [] { FewerInFields(a[..|a| - 1], b[..|b| - 1]); }
  }

  /** Equal text, one row having no fewer separators than the other anywhere: it has as many everywhere. */
  lemma SameCounts(a: seq<string>, b: seq<string>)
    requires |a| == |b| && Joined(a) == Joined(b) && forall i :: 0 <= i < |a| ==> Separators(a[i]) <= Separators(b[i])
    ensures a == b
  {
    if a != [] {
      SeparatorsAdd(a);
      SeparatorsAdd(b);
      FewerInFields(a, b);
      JoinedInjective(a, b);
    }
  }

  // ---- cells ----

  /** Cells of the other types never take part in a join. */
  predicate Joinable(v: Value) { !v.IsNull() && (v.String? || v.Long? || v.Int? || v.Double?) }

  function TextOf(v: Value): string
    requires Joinable(v)
  {
    match v
    case String(s) => s.value
    case Long(n) => Decimal(n)
    case Int(i) => Decimal(i)
    case Double(d) => Decimal(d)
  }

  /** The number whose decimal text a cell has; a double counts by its bit pattern. */
  function NumberIn(v: Value): int
    requires Joinable(v) && !v.String?
  {
    match v case Long(n) => n case Int(i) => i case Double(d) => d
  }

  /** Cells that meet: equal strings, equal numbers, or a string that spells the number. */
  predicate Meets(a: Value, b: Value) {
    && Joinable(a) && Joinable(b)
    && if a.String? && b.String? then a == b
       else if a.String? then a.s.value == Decimal(NumberIn(b))
       else if b.String? then b.s.value == Decimal(NumberIn(a))
       else NumberIn(a) == NumberIn(b)
  }

  lemma TextMeets(a: Value, b: Value)
    requires Joinable(a) && Joinable(b)
    ensures TextOf(a) == TextOf(b) <==> Meets(a, b)
  {
    if !a.String? && !b.String? && TextOf(a) == TextOf(b) { DecimalInjective(NumberIn(a), NumberIn(b)); }
  }

  /** In columns of one type, cells meet exactly if they are equal. */
  lemma MeetsIsEqual(a: Value, b: Value, ty: ColumnType)
    requires a.HasType(ty) && b.HasType(ty)
    ensures Meets(a, b) <==> Joinable(a) && a == b
  {
  }

  lemma NumberText(v: Value)
    requires Joinable(v) && !v.String?
    ensures SEP !in TextOf(v)
  {
    if v.Long? { DecimalHasNoSeparator(v.n); }
    if v.Int? { DecimalHasNoSeparator(v.i); }
    if v.Double? { DecimalHasNoSeparator(v.d); }
  }

  function CellsOf(row: Row, cols: seq<nat>): (cells: seq<Value>)
    requires forall i :: 0 <= i < |cols| ==> cols[i] < |row|
    ensures |cells| == |cols|
  {
    seq(|cols|, i requires 0 <= i < |cols| => row[cols[i]])
  }

  predicate AllJoinable(cells: seq<Value>) { forall i :: 0 <= i < |cells| ==> Joinable(cells[i]) }

  function Texts(cells: seq<Value>): (fields: seq<string>)
    requires AllJoinable(cells)
    ensures |fields| == |cells|
  {
    seq(|cells|, i requires 0 <= i < |cells| => TextOf(cells[i]))
  }

  /** `None` when some cell cannot take part. */
  function KeyText(cells: seq<Value>): Option<string> {
    if AllJoinable(cells) then Some(Joined(Texts(cells))) else None
  }

  lemma KeyStep(cells: seq<Value>, v: Value)
    requires AllJoinable(cells) && Joinable(v)
    ensures AllJoinable(cells + [v])
    ensures Joined(Texts(cells + [v])) == (if cells == [] then "" else Joined(Texts(cells)) + [SEP]) + TextOf(v)
  {
    TextsSnoc(cells, v);
    var fields, x := Texts(cells), TextOf(v);
    JoinedSnoc(fields, x);
    assert "" + x == x;
  }

  lemma TextsSnoc(cells: seq<Value>, v: Value)
    requires AllJoinable(cells) && Joinable(v)
    ensures AllJoinable(cells + [v]) && Texts(cells + [v]) == Texts(cells) + [TextOf(v)]
  {
  }

  /** The key built cell by cell, giving up at the first that cannot take part. */
  method KeyFor(row: Row, cols: seq<nat>) returns (key: Option<string>)
    requires forall i :: 0 <= i < |cols| ==> cols[i] < |row|
    ensures key == KeyText(CellsOf(row, cols))
  {
    var out := "";
    ghost var cells := CellsOf(row, cols);
    for i := 0 to |cols|
      invariant AllJoinable(cells[..i]) && out == Joined(Texts(cells[..i]))
    {
      if i > 0 { out := out + [SEP]; }
      var v := row[cols[i]];
      assert cells[i] == v;
      if !Joinable(v) { return None; }
      KeyStep(cells[..i], v);
      assert cells[..i + 1] == cells[..i] + [v];
      out := out + TextOf(v);
    }
    assert cells[..|cols|] == cells;
    return Some(out);
  }

  // ---- when equal text means equal cells ----

  predicate Typed(cells: seq<Value>, types: seq<ColumnType>) {
    |cells| == |types| && forall i :: 0 <= i < |types| ==> cells[i].HasType(types[i])
  }

  predicate AllMeet(a: seq<Value>, b: seq<Value>) { |a| == |b| && forall i :: 0 <= i < |a| ==> Meets(a[i], b[i]) }

  lemma TextsMeet(a: seq<Value>, b: seq<Value>)
    requires |a| == |b| && AllJoinable(a) && AllJoinable(b)
    ensures Texts(a) == Texts(b) <==> AllMeet(a, b)
  {
    forall i | 0 <= i < |a| ensures Texts(a)[i] == Texts(b)[i] <==> Meets(a[i], b[i]) { TextMeets(a[i], b[i]); }
  }

  predicate HoldsSeparator(v: Value) { v.String? && v.s.Some? && SEP in v.s.value }

  predicate NoSeparator(cells: seq<Value>) { forall i :: 0 <= i < |cells| ==> !HoldsSeparator(cells[i]) }

  /** Separators are in one column only, which the list may name more than once. */
  predicate InOneColumn(a: seq<Value>, b: seq<Value>, p: nat)
    requires |a| == |b|
  {
    p < |a| && forall i :: 0 <= i < |a| && (HoldsSeparator(a[i]) || HoldsSeparator(b[i])) ==>
      a[i] == a[p] && b[i] == b[p]
  }

  /**
   The key of neither row can be mistaken for the other's: one takes no part in a
   join or holds no separator, or both hold separators in one and the same column.
   */
  ghost predicate Clear(a: seq<Value>, b: seq<Value>)
    requires |a| == |b|
  {
    || !AllJoinable(a) || !AllJoinable(b) || NoSeparator(a) || NoSeparator(b)
    || exists p: nat :: InOneColumn(a, b, p)
  }

  lemma TextSeparators(v: Value)
    requires Joinable(v)
    ensures Separators(TextOf(v)) > 0 <==> HoldsSeparator(v)
  {
    if !v.String? { NumberText(v); }
  }

  lemma FreeOfSeparators(cells: seq<Value>)
    requires AllJoinable(cells) && NoSeparator(cells)
    ensures forall i :: 0 <= i < |cells| ==> Separators(Texts(cells)[i]) == 0
  {
    forall i | 0 <= i < |cells| ensures Separators(Texts(cells)[i]) == 0 { TextSeparators(cells[i]); }
  }

  /** Equal keys of clear rows are equal field by field. */
  lemma ClearTexts(a: seq<Value>, b: seq<Value>)
    requires |a| == |b| && AllJoinable(a) && AllJoinable(b) && Clear(a, b) && Joined(Texts(a)) == Joined(Texts(b))
    ensures Texts(a) == Texts(b)
  {
    if NoSeparator(a) {
      FreeOfSeparators(a);
      SameCounts(Texts(a), Texts(b));
    } else if NoSeparator(b) {
      FreeOfSeparators(b);
      SameCounts(Texts(b), Texts(a));
    } else {
      var p: nat :| InOneColumn(a, b, p);
      forall i | 0 <= i < |a|
        ensures || Separators(Texts(a)[i]) == Separators(Texts(b)[i]) == 0
                || (Texts(a)[i] == Texts(a)[p] && Texts(b)[i] == Texts(b)[p])
      {
        TextSeparators(a[i]);
        TextSeparators(b[i]);
      }
      if Separators(Texts(a)[p]) <= Separators(Texts(b)[p]) {
        SameCounts(Texts(a), Texts(b));
      } else {
        SameCounts(Texts(b), Texts(a));
      }
    }
  }

  /** Rows meet under one key exactly when their cells meet, whatever the column types. */
  lemma KeysMatch(a: seq<Value>, b: seq<Value>)
    requires |a| == |b| && Clear(a, b)
    ensures KeyText(a).Some? && KeyText(a) == KeyText(b) <==> AllMeet(a, b)
  {
    if AllJoinable(a) && AllJoinable(b) {
      TextsMeet(a, b);
      if KeyText(a) == KeyText(b) { ClearTexts(a, b); }
    }
  }

  // ---- which column types make every key unambiguous ----

  predicate JoinableType(ty: ColumnType) { ty.StringType? || ty.LongType? || ty.IntType? || ty.DoubleType? }

  /** Some column of either side never takes part in a join. */
  predicate NeverJoins(l: seq<ColumnType>, r: seq<ColumnType>) {
    || (exists k :: 0 <= k < |l| && !JoinableType(l[k]))
    || (exists k :: 0 <= k < |r| && !JoinableType(r[k]))
  }

  /** Under a name given twice there is one column. */
  ghost predicate Tied<N, T>(names: seq<N>, xs: seq<T>) {
    |names| == |xs| && forall i, j :: 0 <= i < |names| && 0 <= j < |names| && names[i] == names[j] ==> xs[i] == xs[j]
  }

  /** A string column on the left and one of another name on the right. */
  predicate Crossed<N(==)>(names: seq<N>, l: seq<ColumnType>, r: seq<ColumnType>, i: nat, j: nat)
    requires |names| == |l| == |r|
  {
    i < |names| && j < |names| && names[i] != names[j] && l[i] == StringType && r[j] == StringType
  }

  ghost predicate Uncrossed<N>(names: seq<N>, l: seq<ColumnType>, r: seq<ColumnType>)
    requires |names| == |l| == |r|
  {
    forall i: nat, j: nat :: !Crossed(names, l, r, i, j)
  }

  /** Equal keys always mean cells that meet, for rows of these types. */
  ghost predicate Unambiguous<N>(names: seq<N>, l: seq<ColumnType>, r: seq<ColumnType>) {
    forall a, b ::
      Typed(a, l) && Typed(b, r) && Tied(names, a) && Tied(names, b) && KeyText(a).Some? && KeyText(a) == KeyText(b) ==>
      AllMeet(a, b)
  }

  /** Without crossed strings, one side has no strings, or all strings are in one column. */
  lemma UncrossedIsClear<N>(names: seq<N>, l: seq<ColumnType>, r: seq<ColumnType>, a: seq<Value>, b: seq<Value>)
    requires Typed(a, l) && Typed(b, r) && Tied(names, a) && Tied(names, b)
             && (NeverJoins(l, r) || Uncrossed(names, l, r))
    ensures Clear(a, b)
  {
    if NeverJoins(l, r) {
      if k :| 0 <= k < |l| && !JoinableType(l[k]) {
        assert !Joinable(a[k]);
      } else {
        var k :| 0 <= k < |r| && !JoinableType(r[k]);
        assert !Joinable(b[k]);
      }
    } else if p: nat, j: nat :| p < |l| && j < |r| && l[p] == StringType && r[j] == StringType {
      assert !Crossed(names, l, r, p, j);
      forall i: nat | i < |a| && (HoldsSeparator(a[i]) || HoldsSeparator(b[i])) ensures names[i] == names[p] {
        assert !Crossed(names, l, r, i, j) && !Crossed(names, l, r, p, i);
      }
      assert InOneColumn(a, b, p);
    }
  }

  // ---- rows that collide ----

  /** Cells of any joinable types, all with the text "0". */
  function Zero(ty: ColumnType): (v: Value)
    requires JoinableType(ty)
    ensures v.HasType(ty) && Joinable(v) && TextOf(v) == "0"
  {
    match ty
    case StringType => String(Some("0"))
    case LongType => Long(0)
    case IntType => Int(0)
    case DoubleType => Double(PlusZero)
  }

  function Zeros(n: nat): (fields: seq<string>)
    ensures |fields| == n
  {
    seq(n, i => "0")
  }

  lemma {:induction false} ZerosSeparators(n: nat)
    requires n > 0
    ensures Separators(Joined(Zeros(n))) == n - 1
  {
    SeparatorsAdd(Zeros(n));
    NoneInZeros(n);
  }

  lemma {:induction false} NoneInZeros(n: nat)
    ensures InFields(Zeros(n)) == 0
  {
    if n > 0 {
      assert Zeros(n)[..n - 1] == Zeros(n - 1);
      NoneInZeros(n - 1);
    }
  }

  /** So many for every column of the list that has the name. */
  ghost function Each<N>(names: seq<N>, name: N, more: nat): nat {
    if names == [] then 0
    else Each(names[..|names| - 1], name, more) + if names[|names| - 1] == name then more else 0
  }

  lemma {:induction false} EachTimes<N>(names: seq<N>, name: N, more: nat)
    ensures Each(names, name, more) == Each(names, name, 1) * more
  {
    if names != [] { EachTimes(names[..|names| - 1], name, more); }
  }

  lemma {:induction false} AtLeastOne<N>(names: seq<N>, i: nat)
    requires i < |names|
    ensures Each(names, names[i], 1) > 0
  {
    if i < |names| - 1 { AtLeastOne(names[..|names| - 1], i); }
  }

  /** Two names: as many for each column of the one as there are of the other, and the other way round. */
  lemma EachForEach<N>(names: seq<N>, x: N, y: N)
    ensures Each(names, x, Each(names, y, 1)) == Each(names, y, Each(names, x, 1))
  {
    EachTimes(names, x, Each(names, y, 1));
    EachTimes(names, y, Each(names, x, 1));
  }

  /** Fields "0", but under one name `1 + more` of them and the separators between. */
  ghost function Stuffed<N>(names: seq<N>, name: N, more: nat): seq<string> {
    seq(|names|, k requires 0 <= k < |names| => if names[k] == name then Joined(Zeros(1 + more)) else "0")
  }

  lemma ZerosSplit(m: nat, n: nat)
    requires m > 0 && n > 0
    ensures Joined(Zeros(m + n)) == Joined(Zeros(m)) + [SEP] + Joined(Zeros(n))
  {
    assert Zeros(m + n) == Zeros(m) + Zeros(n);
    JoinedSplit(Zeros(m), Zeros(n));
  }

  lemma StuffedLast<N>(names: seq<N>, name: N, more: nat)
    requires names != []
    ensures var n := |names| - 1;
            && Stuffed(names, name, more)[..n] == Stuffed(names[..n], name, more)
            && Stuffed(names, name, more)[n] == Joined(Zeros(1 + if names[n] == name then more else 0))
  {
    assert Zeros(1) == ["0"];
  }

  /** A last field of zeros after text that is one of zeros. */
  lemma ZerosSnoc(fields: seq<string>, m: nat, n: nat)
    requires |fields| >= 2 && m > 0 && n > 0
    requires Joined(fields[..|fields| - 1]) == Joined(Zeros(m)) && fields[|fields| - 1] == Joined(Zeros(n))
    ensures Joined(fields) == Joined(Zeros(m + n))
  {
    ZerosSplit(m, n);
  }

  /** Wherever those fields are, the text is that of so many zeros. */
  lemma {:induction false} StuffedText<N>(names: seq<N>, name: N, more: nat)
    requires names != []
    ensures Joined(Stuffed(names, name, more)) == Joined(Zeros(|names| + Each(names, name, more)))
  {
    var n := |names| - 1;
    var front, here := names[..n], if names[n] == name then more else 0;
    StuffedLast(names, name, more);
    assert Each(names, name, more) == Each(front, name, more) + here;
    if n == 0 {
      assert Stuffed(names, name, more) == [Joined(Zeros(1 + here))];
    } else {
      StuffedText(front, name, more);
      ZerosSnoc(Stuffed(names, name, more), n + Each(front, name, more), 1 + here);
    }
  }

  /** Cells of the given types with those texts. */
  ghost function StuffedCells<N>(names: seq<N>, types: seq<ColumnType>, i: nat, more: nat): (cells: seq<Value>)
    requires Tied(names, types) && i < |names| && types[i] == StringType
    requires forall k :: 0 <= k < |types| ==> JoinableType(types[k])
    ensures Typed(cells, types) && Tied(names, cells) && AllJoinable(cells)
    ensures Texts(cells) == Stuffed(names, names[i], more)
  {
    seq(|types|, k requires 0 <= k < |types| =>
      if names[k] == names[i] then String(Some(Joined(Zeros(1 + more)))) else Zero(types[k]))
  }

  lemma StuffedKey<N>(names: seq<N>, types: seq<ColumnType>, i: nat, more: nat)
    requires Tied(names, types) && i < |names| && types[i] == StringType
    requires forall k :: 0 <= k < |types| ==> JoinableType(types[k])
    ensures KeyText(StuffedCells(names, types, i, more)) == Some(Joined(Zeros(|names| + Each(names, names[i], more))))
  {
    StuffedText(names, names[i], more);
  }

  lemma StuffedNeverMeets(a: Value, b: Value, more: nat)
    requires Joinable(a) && Joinable(b) && more > 0 && TextOf(a) == Joined(Zeros(1 + more)) && TextOf(b) == "0"
    ensures !Meets(a, b)
  {
    ZerosSeparators(1 + more);
    TextMeets(a, b);
  }

  /** A string column on the left and one of another name on the right: the separators can be in either. */
  lemma CrossedCollide<N>(names: seq<N>, l: seq<ColumnType>, r: seq<ColumnType>, i: nat, j: nat)
    returns (a: seq<Value>, b: seq<Value>)
    requires Tied(names, l) && Tied(names, r) && Crossed(names, l, r, i, j) && !NeverJoins(l, r)
    ensures Typed(a, l) && Typed(b, r) && Tied(names, a) && Tied(names, b)
    ensures KeyText(a).Some? && KeyText(a) == KeyText(b) && !AllMeet(a, b)
  {
    var m, n := Each(names, names[i], 1), Each(names, names[j], 1);
    a, b := StuffedCells(names, l, i, n), StuffedCells(names, r, j, m);
    StuffedKey(names, l, i, n);
    StuffedKey(names, r, j, m);
    EachForEach(names, names[i], names[j]);
    AtLeastOne(names, j);
    assert Texts(a)[i] == Joined(Zeros(1 + n)) && Texts(b)[i] == "0";
    StuffedNeverMeets(a[i], b[i], n);
  }

  /**
   For any USING list and types of its columns in the two tables: equal keys always
   mean cells that meet if and only if no string column of one faces a string column
   of another name in the other, or some column never joins.
   */
  lemma UnambiguousExactly<N>(names: seq<N>, l: seq<ColumnType>, r: seq<ColumnType>)
    requires Tied(names, l) && Tied(names, r)
    ensures Unambiguous(names, l, r) <==> NeverJoins(l, r) || Uncrossed(names, l, r)
  {
    if NeverJoins(l, r) || Uncrossed(names, l, r) {
      forall a, b | Typed(a, l) && Typed(b, r) && Tied(names, a) && Tied(names, b) && KeyText(a).Some?
        && KeyText(a) == KeyText(b)
        ensures AllMeet(a, b)
      {
        UncrossedIsClear(names, l, r, a, b);
        KeysMatch(a, b);
      }
    } else {
      var i: nat, j: nat :| Crossed(names, l, r, i, j);
      var a, b := CrossedCollide(names, l, r, i, j);
    }
  }

  // ---- tables of the same types ----

  /** The names of a list without repetition: each column is its own place. */
  function Places(n: nat): (names: seq<nat>)
    ensures |names| == n && forall i :: 0 <= i < n ==> names[i] == i
  {
    seq(n, i => i)
  }

  predicate TwoStrings(types: seq<ColumnType>, i: nat, j: nat) {
    i < j < |types| && types[i] == StringType && types[j] == StringType
  }

  /** With two string columns, a separator inside one string can stand for the one between two. */
  lemma TwoStringsCollide(types: seq<ColumnType>, i: nat, j: nat) returns (a: seq<Value>, b: seq<Value>)
    requires TwoStrings(types, i, j) && forall k :: 0 <= k < |types| ==> JoinableType(types[k])
    ensures Typed(a, types) && Typed(b, types) && a != b && KeyText(a).Some? && KeyText(a) == KeyText(b)
  {
    a, b := CrossedCollide(Places(|types|), types, types, i, j);
    if a == b {
      forall k | 0 <= k < |a| ensures Meets(a[k], b[k]) { TextMeets(a[k], b[k]); }
    }
  }

  /** On columns of the same types: equal keys mean equal cells. */
  ghost predicate Telling(types: seq<ColumnType>) {
    forall a, b :: Typed(a, types) && Typed(b, types) && KeyText(a).Some? && KeyText(a) == KeyText(b) ==> a == b
  }

  /** That is so if and only if there is at most one string column, or a column that never joins. */
  lemma SameTypesExactly(types: seq<ColumnType>)
    ensures Telling(types) <==>
            || (forall i: nat, j: nat :: !TwoStrings(types, i, j))
            || exists k :: 0 <= k < |types| && !JoinableType(types[k])
  {
    if i: nat, j: nat :| TwoStrings(types, i, j) && !NeverJoins(types, types) {
      var a, b := TwoStringsCollide(types, i, j);
    } else {
      forall i: nat, j: nat ensures NeverJoins(types, types) || !Crossed(Places(|types|), types, types, i, j) {
        assert NeverJoins(types, types) || (!TwoStrings(types, i, j) && !TwoStrings(types, j, i));
      }
      forall a, b | Typed(a, types) && Typed(b, types) && KeyText(a).Some? && KeyText(a) == KeyText(b) ensures a == b {
        UncrossedIsClear(Places(|types|), types, types, a, b);
        KeysMatch(a, b);
        forall k | 0 <= k < |types| ensures a[k] == b[k] { MeetsIsEqual(a[k], b[k], types[k]); }
      }
    }
  }

  /** One string column a side, in different places: rows that have nothing in common share a key. */
  lemma UnlikeTypesCollide()
    ensures var a, b := [String(Some("7" + [SEP] + "8")), Long(5)], [Long(7), String(Some("8" + [SEP] + "5"))];
            && Typed(a, [StringType, LongType]) && Typed(b, [LongType, StringType])
            && KeyText(a).Some? && KeyText(a) == KeyText(b) && !Meets(a[0], b[0]) && !Meets(a[1], b[1])
  {
    var x, y := "7" + [SEP] + "8", "8" + [SEP] + "5";
    var a, b := [String(Some(x)), Long(5)], [Long(7), String(Some(y))];
    assert Decimal(5) == "5" && Decimal(7) == "7";
    assert Texts(a) == [x] + ["5"] && Texts(b) == ["7"] + [y];
    JoinedSplit([x], ["5"]);
    JoinedSplit(["7"], [y]);
    assert x + [SEP] + "5" == "7" + [SEP] + y;
    assert |x| == |y| == 3;
  }
}
