/**
 WHERE predicates: the compiled tree, its three-valued evaluation, and the
 columns it reads.

 The typed comparison leaves of the source (`EqDouble`, `LtDouble`, ...) are one
 constructor per column type carrying the operator.  Floating-point arithmetic,
 case mapping and the regular-expression engine are library code: they enter as
 the fields of `Library`, and every statement holds for any such functions.
 */
module Predicates {
  import opened Wrappers
  import opened Float64
  import opened Values

  datatype StringFn = Upper | Lower

  datatype CmpOp = Eq | Neq | Lt | Le | Gt | Ge {
    predicate Apply(x: int, y: int) {
      match this
      case Eq => x == y
      case Neq => x != y
      case Lt => x < y
      case Le => x <= y
      case Gt => x > y
      case Ge => x >= y
    }

    /** The bare IEEE operators. */
    predicate ApplyF64(x: F64, y: F64) {
      match this
      case Eq => Float64.Eq(x, y)
      case Neq => !Float64.Eq(x, y)
      case Lt => Float64.Lt(x, y)
      case Le => Float64.Le(x, y)
      case Gt => Float64.Lt(y, x)
      case Ge => Float64.Le(y, x)
    }
  }

  datatype Library = Library(
    add: (F64, F64) -> F64,
    sub: (F64, F64) -> F64,
    mul: (F64, F64) -> F64,
    div: (F64, F64) -> F64,
    neg: F64 -> F64,
    abs: F64 -> F64,
    round: F64 -> F64,
    floor: F64 -> F64,
    ceil: F64 -> F64,
    ofInt: int -> F64,
    mapCase: (StringFn, string) -> string,
    equalsMapped: (StringFn, string, string) -> bool,
    isMatch: (string, string) -> bool)

  // ---- expressions ----

  datatype StringExpr =
    | StrCol(col: nat)
    | StrLit(lit: string)
    | StrCase(fn: StringFn, inner: StringExpr)
    | Substr(inner: StringExpr, start: I64, len: Option<I64>)
    | Concat(parts: seq<StringExpr>)

  datatype NumExpr =
    | NumCol(col: nat)
    | NumLit(lit: F64)
    | Add(a: NumExpr, b: NumExpr)
    | Sub(a: NumExpr, b: NumExpr)
    | Mul(a: NumExpr, b: NumExpr)
    | Div(a: NumExpr, b: NumExpr)
    | Neg(a: NumExpr)
    | Abs(a: NumExpr)
    | Round(a: NumExpr)
    | Floor(a: NumExpr)
    | Ceil(a: NumExpr)
    | Coalesce(args: seq<NumExpr>)
    | NullIf(a: NumExpr, b: NumExpr)
    | NowMicros(micros: I64)

  /** What a comparison leaf asks of the non-null cell it reads. */
  datatype CellTest =
    | DoubleCmp(op: CmpOp, dval: F64)
    | DoubleBetween(dlow: F64, dhigh: F64)
    | DoubleIn(patterns: set<F64>)
    | LongCmp(op: CmpOp, lval: I64)
    | LongBetween(llow: I64, lhigh: I64)
    | LongIn(longs: set<I64>)
    | TimestampCmp(op: CmpOp, tval: I64)
    | TimestampBetween(tlow: I64, thigh: I64)
    | TimestampIn(times: set<I64>)
    | BoolEq(bval: bool)
    | BoolNeq(bval: bool)
    | BoolIn(bools: set<bool>)
    | StringEq(sval: string)
    | StringNeq(sval: string)
    | StringIn(strings: set<string>)
    | Like(pattern: string)
    | Regex(pattern: string)
    | MappedEq(fn: StringFn, sval: string)
    | MappedNeq(fn: StringFn, sval: string)
    | MappedLike(fn: StringFn, pattern: string)
    | LengthCmp(op: CmpOp, lval: I64)

  datatype StringTest = Equals(sval: string) | Differs(sval: string) | MatchesPattern(pattern: string)

  datatype NumTest = Compares(op: CmpOp, dval: F64) | Between(dlow: F64, dhigh: F64)

  datatype Predicate =
    | Cell(col: nat, test: CellTest)
    | StringOf(sexpr: StringExpr, stest: StringTest)
    | NumberOf(nexpr: NumExpr, ntest: NumTest)
    | IsNull(col: nat)
    | IsNotNull(col: nat)
    | IsBool(col: nat, wantTrue: bool, negated: bool)
    | And(left: Predicate, right: Predicate)
    | Or(left: Predicate, right: Predicate)
    | Not(inner: Predicate)
    | Everything

  // ---- which trees suit a schema ----

  /** Columns read through `get_string` must be string columns. */
  predicate StringExprFits(e: StringExpr, types: seq<ColumnType>)
    decreases e
  {
    match e
    case StrCol(c) => c < |types| && types[c] == StringType
    case StrLit(_) => true
    case StrCase(_, inner) => StringExprFits(inner, types)
    case Substr(inner, _, _) => StringExprFits(inner, types)
    case Concat(parts) => forall p :: p in parts ==> StringExprFits(p, types)
  }

  predicate NumExprFits(e: NumExpr, types: seq<ColumnType>)
    decreases e
  {
    match e
    case NumCol(c) => c < |types|
    case NumLit(_) => true
    case NowMicros(_) => true
    case Neg(a) => NumExprFits(a, types)
    case Abs(a) => NumExprFits(a, types)
    case Round(a) => NumExprFits(a, types)
    case Floor(a) => NumExprFits(a, types)
    case Ceil(a) => NumExprFits(a, types)
    case Coalesce(args) => forall p :: p in args ==> NumExprFits(p, types)
    case Add(a, b) => NumExprFits(a, types) && NumExprFits(b, types)
    case Sub(a, b) => NumExprFits(a, types) && NumExprFits(b, types)
    case Mul(a, b) => NumExprFits(a, types) && NumExprFits(b, types)
    case Div(a, b) => NumExprFits(a, types) && NumExprFits(b, types)
    case NullIf(a, b) => NumExprFits(a, types) && NumExprFits(b, types)
  }

  /** The type of the columns a test reads, through the typed getter of that type. */
  function TestType(test: CellTest): ColumnType {
    if test.DoubleCmp? || test.DoubleBetween? || test.DoubleIn? then DoubleType
    else if test.LongCmp? || test.LongBetween? || test.LongIn? then LongType
    else if test.TimestampCmp? || test.TimestampBetween? || test.TimestampIn? then TimestampType
    else if test.BoolEq? || test.BoolNeq? || test.BoolIn? then BoolType
    else StringType
  }

  /** The typed getters demand that a leaf's column has the leaf's type. */
  predicate Fits(p: Predicate, types: seq<ColumnType>) {
    match p
    case Cell(c, test) => c < |types| && types[c] == TestType(test)
    case StringOf(e, _) => StringExprFits(e, types)
    case NumberOf(e, _) => NumExprFits(e, types)
    case IsNull(c) => c < |types|
    case IsNotNull(c) => c < |types|
    case IsBool(c, _, _) => c < |types| && types[c] == BoolType
    case And(a, b) => Fits(a, types) && Fits(b, types)
    case Or(a, b) => Fits(a, types) && Fits(b, types)
    case Not(a) => Fits(a, types)
    case Everything => true
  }

  // ---- evaluation ----

  function SubstrOf(s: string, start: I64, len: Option<I64>): string {
    var n := |s|;
    var from := if start <= 0 then 0 else if start - 1 <= n then start - 1 else n;
    var to :=
      match len
      case None => n
      case Some(l) => if l <= 0 then from else if from + l <= n then from + l else n;
    s[from..to]
  }

  function EvalString(lib: Library, e: StringExpr, types: seq<ColumnType>, row: Row): Option<string>
    requires StringExprFits(e, types) && RowTyped(types, row)
    decreases e, 1
  {
    match e
    case StrCol(c) => row[c].s
    case StrLit(s) => Some(s)
    case StrCase(fn, inner) =>
      (match EvalString(lib, inner, types, row)
       case None => None
       case Some(s) => Some(lib.mapCase(fn, s)))
    case Substr(inner, start, len) =>
      (match EvalString(lib, inner, types, row)
       case None => None
       case Some(s) => Some(SubstrOf(s, start, len)))
    case Concat(parts) => Some(EvalConcat(lib, parts, types, row))
  }

  /** Null parts contribute the empty string. */
  function EvalConcat(lib: Library, parts: seq<StringExpr>, types: seq<ColumnType>, row: Row): string
    requires (forall p :: p in parts ==> StringExprFits(p, types)) && RowTyped(types, row)
    decreases parts, 0
  {
    if parts == [] then ""
    else
      var head := EvalString(lib, parts[0], types, row);
      (if head.Some? then head.value else "") + EvalConcat(lib, parts[1..], types, row)
  }

  function AsF64(lib: Library, v: Value): Option<F64> {
    match v
    case Double(d) => if IsNaN(d) then None else Some(d)
    case Long(n) => if n == NULL_LONG then None else Some(lib.ofInt(n))
    case Int(i) => if i == NULL_INT then None else Some(lib.ofInt(i))
    case Timestamp(t) => if t == NULL_TIMESTAMP then None else Some(lib.ofInt(t))
    case _ => None
  }

  /** NaN stands for null throughout. */
  function EvalNum(lib: Library, e: NumExpr, types: seq<ColumnType>, row: Row): F64
    requires NumExprFits(e, types) && RowTyped(types, row)
    decreases e, 1
  {
    match e
    case NumCol(c) => var v := AsF64(lib, row[c]); if v.Some? then v.value else QuietNaN
    case NumLit(d) => d
    case Add(a, b) => lib.add(EvalNum(lib, a, types, row), EvalNum(lib, b, types, row))
    case Sub(a, b) => lib.sub(EvalNum(lib, a, types, row), EvalNum(lib, b, types, row))
    case Mul(a, b) => lib.mul(EvalNum(lib, a, types, row), EvalNum(lib, b, types, row))
    case Div(a, b) =>
      var d := EvalNum(lib, b, types, row);
      if Float64.Eq(d, PlusZero) then QuietNaN else lib.div(EvalNum(lib, a, types, row), d)
    case Neg(a) => lib.neg(EvalNum(lib, a, types, row))
    case Abs(a) => lib.abs(EvalNum(lib, a, types, row))
    case Round(a) => lib.round(EvalNum(lib, a, types, row))
    case Floor(a) => lib.floor(EvalNum(lib, a, types, row))
    case Ceil(a) => lib.ceil(EvalNum(lib, a, types, row))
    case Coalesce(args) => EvalCoalesce(lib, args, types, row)
    case NullIf(a, b) =>
      var x, y := EvalNum(lib, a, types, row), EvalNum(lib, b, types, row);
      if Float64.Eq(x, y) then QuietNaN else x
    case NowMicros(t) => lib.ofInt(t)
  }

  function EvalCoalesce(lib: Library, args: seq<NumExpr>, types: seq<ColumnType>, row: Row): F64
    requires (forall p :: p in args ==> NumExprFits(p, types)) && RowTyped(types, row)
    decreases args, 0
  {
    if args == [] then QuietNaN
    else
      var v := EvalNum(lib, args[0], types, row);
      if !IsNaN(v) then v else EvalCoalesce(lib, args[1..], types, row)
  }

  datatype Tri = True | False | Unknown

  function OfBool(b: bool): Tri { if b then True else False }

  /** A test on one non-null cell of its type. */
  predicate Holds(lib: Library, test: CellTest, v: Value)
    requires v.HasType(TestType(test)) && !v.IsNull()
  {
    match test
    case DoubleCmp(op, x) => op.ApplyF64(v.d, x)
    case DoubleBetween(low, high) => Float64.Le(low, v.d) && Float64.Le(v.d, high)
    case DoubleIn(patterns) => v.d in patterns
    case LongCmp(op, x) => op.Apply(v.n, x)
    case LongBetween(low, high) => low <= v.n <= high
    case LongIn(longs) => v.n in longs
    case TimestampCmp(op, x) => op.Apply(v.t, x)
    case TimestampBetween(low, high) => low <= v.t <= high
    case TimestampIn(times) => v.t in times
    case BoolEq(x) => v.b.value == x
    case BoolNeq(x) => v.b.value != x
    case BoolIn(bools) => v.b.value in bools
    case StringEq(x) => v.s.value == x
    case StringNeq(x) => v.s.value != x
    case StringIn(strings) => v.s.value in strings
    case Like(pattern) => lib.isMatch(pattern, v.s.value)
    case Regex(pattern) => lib.isMatch(pattern, v.s.value)
    case MappedEq(fn, x) => lib.equalsMapped(fn, v.s.value, x)
    case MappedNeq(fn, x) => !lib.equalsMapped(fn, v.s.value, x)
    case MappedLike(fn, pattern) => lib.isMatch(pattern, lib.mapCase(fn, v.s.value))
    case LengthCmp(op, x) => op.Apply(|v.s.value|, x)
  }

  predicate StringHolds(lib: Library, test: StringTest, s: string) {
    match test
    case Equals(x) => s == x
    case Differs(x) => s != x
    case MatchesPattern(pattern) => lib.isMatch(pattern, s)
  }

  /** A NaN literal satisfies no operator, not even `<>`. */
  predicate NumHolds(test: NumTest, v: F64) {
    match test
    case Compares(op, x) => !IsNaN(v) && !IsNaN(x) && op.ApplyF64(v, x)
    case Between(low, high) => Float64.Le(low, v) && Float64.Le(v, high)
  }

  /** Comparisons are unknown on null; IS [NOT] NULL and IS [NOT] TRUE/FALSE never are. */
  function Eval(lib: Library, p: Predicate, types: seq<ColumnType>, row: Row): Tri
    requires Fits(p, types) && RowTyped(types, row)
  {
    match p
    case Cell(c, test) =>
      if row[c].IsNull() then Unknown else OfBool(Holds(lib, test, row[c]))
    case StringOf(e, test) =>
      (match EvalString(lib, e, types, row)
       case None => Unknown
       case Some(s) => OfBool(StringHolds(lib, test, s)))
    case NumberOf(e, test) =>
      var v := EvalNum(lib, e, types, row);
      if IsNaN(v) then Unknown else OfBool(NumHolds(test, v))
    case IsNull(c) => OfBool(row[c].IsNull())
    case IsNotNull(c) => OfBool(!row[c].IsNull())
    case IsBool(c, want, negated) =>
      OfBool(negated != (row[c].b.Some? && row[c].b.value == want))
    case And(a, b) =>
      (match (Eval(lib, a, types, row), Eval(lib, b, types, row))
       case (False, _) => False
       case (_, False) => False
       case (True, True) => True
       case _ => Unknown)
    case Or(a, b) =>
      (match (Eval(lib, a, types, row), Eval(lib, b, types, row))
       case (True, _) => True
       case (_, True) => True
       case (False, False) => False
       case _ => Unknown)
    case Not(a) =>
      (match Eval(lib, a, types, row)
       case True => False
       case False => True
       case Unknown => Unknown)
    case Everything => True
  }

  predicate Matches(lib: Library, p: Predicate, types: seq<ColumnType>, row: Row)
    requires Fits(p, types) && RowTyped(types, row)
  {
    Eval(lib, p, types, row) == True
  }

  // ---- Kleene logic: the tables above against the order False < Unknown < True ----

  function Rank(t: Tri): int { match t case False => 0 case Unknown => 1 case True => 2 }

  lemma EvalIsKleene(lib: Library, a: Predicate, b: Predicate, types: seq<ColumnType>, row: Row)
    requires Fits(a, types) && Fits(b, types) && RowTyped(types, row)
    ensures var x, y := Rank(Eval(lib, a, types, row)), Rank(Eval(lib, b, types, row));
            && Rank(Eval(lib, And(a, b), types, row)) == (if x <= y then x else y)
            && Rank(Eval(lib, Or(a, b), types, row)) == (if x <= y then y else x)
            && Rank(Eval(lib, Not(a), types, row)) == 2 - x
  {
    assert Eval(lib, Not(a), types, row) ==
           (match Eval(lib, a, types, row) case True => False case False => True case Unknown => Unknown);
  }

  // ---- referenced columns ----

  function StringExprColumns(e: StringExpr): seq<nat>
    decreases e, 1
  {
    match e
    case StrCol(c) => [c]
    case StrLit(_) => []
    case StrCase(_, inner) => StringExprColumns(inner)
    case Substr(inner, _, _) => StringExprColumns(inner)
    case Concat(parts) => StringPartsColumns(parts)
  }

  function StringPartsColumns(parts: seq<StringExpr>): seq<nat>
    decreases parts, 0
  {
    if parts == [] then [] else StringExprColumns(parts[0]) + StringPartsColumns(parts[1..])
  }

  function NumExprColumns(e: NumExpr): seq<nat>
    decreases e, 1
  {
    match e
    case NumCol(c) => [c]
    case NumLit(_) => []
    case NowMicros(_) => []
    case Neg(a) => NumExprColumns(a)
    case Abs(a) => NumExprColumns(a)
    case Round(a) => NumExprColumns(a)
    case Floor(a) => NumExprColumns(a)
    case Ceil(a) => NumExprColumns(a)
    case Coalesce(args) => NumArgsColumns(args)
    case Add(a, b) => NumExprColumns(a) + NumExprColumns(b)
    case Sub(a, b) => NumExprColumns(a) + NumExprColumns(b)
    case Mul(a, b) => NumExprColumns(a) + NumExprColumns(b)
    case Div(a, b) => NumExprColumns(a) + NumExprColumns(b)
    case NullIf(a, b) => NumExprColumns(a) + NumExprColumns(b)
  }

  function NumArgsColumns(args: seq<NumExpr>): seq<nat>
    decreases args, 0
  {
    if args == [] then [] else NumExprColumns(args[0]) + NumArgsColumns(args[1..])
  }

  /** In the order in which the tree walk pushes them, repetitions included. */
  function Columns(p: Predicate): seq<nat> {
    match p
    case Cell(c, _) => [c]
    case StringOf(e, _) => StringExprColumns(e)
    case NumberOf(e, _) => NumExprColumns(e)
    case IsNull(c) => [c]
    case IsNotNull(c) => [c]
    case IsBool(c, _, _) => [c]
    case And(a, b) => Columns(a) + Columns(b)
    case Or(a, b) => Columns(a) + Columns(b)
    case Not(a) => Columns(a)
    case Everything => []
  }

  // ---- evaluation reads the referenced columns and nothing else ----

  ghost predicate AgreeOn(cols: seq<nat>, r: Row, r': Row) {
    forall c :: c in cols && c < |r| && c < |r'| ==> r[c] == r'[c]
  }

  lemma {:induction false} StringExprFrame(lib: Library, e: StringExpr, types: seq<ColumnType>, r: Row, r': Row)
    requires StringExprFits(e, types) && RowTyped(types, r) && RowTyped(types, r')
    requires AgreeOn(StringExprColumns(e), r, r')
    ensures EvalString(lib, e, types, r) == EvalString(lib, e, types, r')
    decreases e, 1
  {
    match e
    case StrCol(c) => assert c in [c];
    case StrLit(_) =>
    case StrCase(_, inner) => StringExprFrame(lib, inner, types, r, r');
    case Substr(inner, _, _) => StringExprFrame(lib, inner, types, r, r');
    case Concat(parts) => StringPartsFrame(lib, parts, types, r, r');
  }

  lemma {:induction false} StringPartsFrame(lib: Library, parts: seq<StringExpr>, types: seq<ColumnType>, r: Row,
                                            r': Row)
    requires (forall p :: p in parts ==> StringExprFits(p, types)) && RowTyped(types, r) && RowTyped(types, r')
    requires AgreeOn(StringPartsColumns(parts), r, r')
    ensures EvalConcat(lib, parts, types, r) == EvalConcat(lib, parts, types, r')
    decreases parts, 0
  {
    if parts != [] {
      StringExprFrame(lib, parts[0], types, r, r');
      StringPartsFrame(lib, parts[1..], types, r, r');
    }
  }

  lemma {:induction false} NumExprFrame(lib: Library, e: NumExpr, types: seq<ColumnType>, r: Row, r': Row)
    requires NumExprFits(e, types) && RowTyped(types, r) && RowTyped(types, r')
    requires AgreeOn(NumExprColumns(e), r, r')
    ensures EvalNum(lib, e, types, r) == EvalNum(lib, e, types, r')
    decreases e, 1
  {
    match e
    case NumCol(c) => assert c in [c];
    case NumLit(_) =>
    case NowMicros(_) =>
    case Neg(a) => NumExprFrame(lib, a, types, r, r');
    case Abs(a) => NumExprFrame(lib, a, types, r, r');
    case Round(a) => NumExprFrame(lib, a, types, r, r');
    case Floor(a) => NumExprFrame(lib, a, types, r, r');
    case Ceil(a) => NumExprFrame(lib, a, types, r, r');
    case Coalesce(args) => NumArgsFrame(lib, args, types, r, r');
    case Add(a, b) => NumExprFrame(lib, a, types, r, r'); NumExprFrame(lib, b, types, r, r');
    case Sub(a, b) => NumExprFrame(lib, a, types, r, r'); NumExprFrame(lib, b, types, r, r');
    case Mul(a, b) => NumExprFrame(lib, a, types, r, r'); NumExprFrame(lib, b, types, r, r');
    case Div(a, b) => NumExprFrame(lib, a, types, r, r'); NumExprFrame(lib, b, types, r, r');
    case NullIf(a, b) => NumExprFrame(lib, a, types, r, r'); NumExprFrame(lib, b, types, r, r');
  }

  lemma {:induction false} NumArgsFrame(lib: Library, args: seq<NumExpr>, types: seq<ColumnType>, r: Row, r': Row)
    requires (forall p :: p in args ==> NumExprFits(p, types)) && RowTyped(types, r) && RowTyped(types, r')
    requires AgreeOn(NumArgsColumns(args), r, r')
    ensures EvalCoalesce(lib, args, types, r) == EvalCoalesce(lib, args, types, r')
    decreases args, 0
  {
    if args != [] {
      NumExprFrame(lib, args[0], types, r, r');
      NumArgsFrame(lib, args[1..], types, r, r');
    }
  }

  /** Rows that agree on the referenced columns get the same three-valued result. */
  lemma {:induction false} EvalFrame(lib: Library, p: Predicate, types: seq<ColumnType>, r: Row, r': Row)
    requires Fits(p, types) && RowTyped(types, r) && RowTyped(types, r')
    requires AgreeOn(Columns(p), r, r')
    ensures Eval(lib, p, types, r) == Eval(lib, p, types, r')
  {
    match p
    case And(a, b) => EvalFrame(lib, a, types, r, r'); EvalFrame(lib, b, types, r, r');
    case Or(a, b) => EvalFrame(lib, a, types, r, r'); EvalFrame(lib, b, types, r, r');
    case Not(a) => EvalFrame(lib, a, types, r, r');
    case Everything =>
    case StringOf(e, _) => StringExprFrame(lib, e, types, r, r');
    case NumberOf(e, _) => NumExprFrame(lib, e, types, r, r');
    case Cell(c, _) => assert c in [c];
    case IsNull(c) => assert c in [c];
    case IsNotNull(c) => assert c in [c];
    case IsBool(c, _, _) => assert c in [c];
  }
}
