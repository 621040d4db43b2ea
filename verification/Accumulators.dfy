/**
 Aggregate accumulators: initial state, update by one input, final value.

 An input of `None` is what COUNT(*) passes.  Floating-point arithmetic, the
 square root and the interpolated percentile on binary64 values are library
 code and enter as functions.
 */
module Accumulators {
  import opened Wrappers
  import opened Float64
  import opened Orders
  import opened Values
  import opened Predicates
  import opened Grouping
  import opened Statistics

  datatype Json = JNull | JBool(b: bool) | JInt(i: int) | JFloat(d: F64) | JString(s: string)

  predicate IsFinite(d: F64) { Exponent(d) != 2047 }

  /** JSON has no infinities and no NaN: they become null. */
  function JsonOfF64(d: F64): Json { if IsFinite(d) then JFloat(d) else JNull }

  datatype AggFn =
    | Count | Sum | Avg | Min | Max
    | Stddev | StddevSample | Variance | VarianceSample
    | PercentileContinuous | CountDistinct

  datatype AggState =
    | CountOf(n: nat)
    | SumI(total: int, seen: bool)
    | SumF(sum: F64, seen: bool)
    | AvgF(sum: F64, n: nat)
    | MinI(least: I64, seen: bool)
    | MaxI(greatest: I64, seen: bool)
    | MinF(leastF: F64, seen: bool)
    | MaxF(greatestF: F64, seen: bool)
    | MinS(leastS: string, seen: bool)
    | MaxS(greatestS: string, seen: bool)
    | Spread(n: nat, mean: F64, m2: F64, kind: WelfordKind)
    | Sample(values: seq<F64>, q: F64)
    | DistinctOf(parts: set<KeyPart>)

  const INFINITY: F64 := 0x7FF0_0000_0000_0000
  const NEG_INFINITY: F64 := 0xFFF0_0000_0000_0000
  const HALF: F64 := 0x3FE0_0000_0000_0000
  const MAX_I64: I64 := 0x7FFF_FFFF_FFFF_FFFF

  function WelfordInit(kind: WelfordKind): AggState { Spread(0, PlusZero, PlusZero, kind) }

  /** Combinations the parser rejects fall through to a counter. */
  function Init(fn: AggFn, ty: Option<ColumnType>, q: Option<F64>): AggState {
    match fn
    case Count => CountOf(0)
    case Avg => AvgF(PlusZero, 0)
    case Sum =>
      if ty == Some(DoubleType) then SumF(PlusZero, false)
      else if ty == Some(LongType) || ty == Some(IntType) then SumI(0, false)
      else CountOf(0)
    case Min =>
      if ty == Some(DoubleType) then MinF(INFINITY, false)
      else if ty == Some(LongType) || ty == Some(IntType) then MinI(MAX_I64, false)
      else if ty == Some(StringType) then MinS("", false)
      else CountOf(0)
    case Max =>
      if ty == Some(DoubleType) then MaxF(NEG_INFINITY, false)
      else if ty == Some(LongType) || ty == Some(IntType) then MaxI(NULL_LONG, false)
      else if ty == Some(StringType) then MaxS("", false)
      else CountOf(0)
    case Stddev => WelfordInit(StddevPop)
    case StddevSample => WelfordInit(StddevSamp)
    case Variance => WelfordInit(VarPop)
    case VarianceSample => WelfordInit(VarSamp)
    case PercentileContinuous => Sample([], if q.Some? then q.value else HALF)
    case CountDistinct => DistinctOf({})
  }

  function AsI64(v: Value): Option<I64> {
    if v.Long? && v.n != NULL_LONG then Some(v.n)
    else if v.Int? && v.i != NULL_INT then Some(v.i)
    else None
  }

  function AsStr(v: Value): Option<string> { if v.String? then v.s else None }

  /** Replace the current extreme by the first input and by every better one. */
  function Better<T>(current: T, seen: bool, x: T, better: (T, T) -> bool): T {
    if !seen || better(x, current) then x else current
  }

  predicate IntLess(a: I64, b: I64) { a < b }

  predicate IntMore(a: I64, b: I64) { a > b }

  predicate F64Less(a: F64, b: F64) { Float64.Lt(a, b) }

  predicate F64More(a: F64, b: F64) { Float64.Lt(b, a) }

  predicate StrLess(a: string, b: string) { CompareString(a, b) == Orders.Less }

  predicate StrMore(a: string, b: string) { CompareString(a, b) == Greater }

  datatype Runtime = Runtime(
    lib: Library,
    sqrt: F64 -> F64,
    interpolate: (seq<F64>, F64) -> F64,
    formatTimestamp: I64 -> string,
    serialize: seq<(string, Json)> -> string)

  function UpdateInt(s: AggState, x: I64): AggState
    requires s.SumI? || s.MinI? || s.MaxI?
  {
    if s.SumI? then SumI(s.total + x, true)
    else if s.MinI? then MinI(Better(s.least, s.seen, x, IntLess), true)
    else MaxI(Better(s.greatest, s.seen, x, IntMore), true)
  }

  function UpdateStr(s: AggState, x: string): AggState
    requires s.MinS? || s.MaxS?
  {
    if s.MinS? then MinS(Better(s.leastS, s.seen, x, StrLess), true)
    else MaxS(Better(s.greatestS, s.seen, x, StrMore), true)
  }

  predicate TakesFloats(s: AggState) { s.SumF? || s.AvgF? || s.MinF? || s.MaxF? || s.Spread? || s.Sample? }

  function UpdateFloat(lib: Library, s: AggState, x: F64): AggState
    requires TakesFloats(s)
  {
    if s.SumF? then SumF(lib.add(s.sum, x), true)
    else if s.AvgF? then AvgF(lib.add(s.sum, x), s.n + 1)
    else if s.MinF? then MinF(Better(s.leastF, s.seen, x, F64Less), true)
    else if s.MaxF? then MaxF(Better(s.greatestF, s.seen, x, F64More), true)
    else if s.Spread? then
      var n := s.n + 1;
      var delta := lib.sub(x, s.mean);
      var mean := lib.add(s.mean, lib.div(delta, lib.ofInt(n)));
      Spread(n, mean, lib.add(s.m2, lib.mul(delta, lib.sub(x, mean))), s.kind)
    else Sample(s.values + [x], s.q)
  }

  function Update(rt: Runtime, s: AggState, input: Option<Value>): AggState {
    if s.CountOf? then
      if input.None? || !input.value.IsNull() then CountOf(s.n + 1) else s
    else if input.None? then s
    else
      var v := input.value;
      if s.DistinctOf? then
        if v.IsNull() then s else DistinctOf(s.parts + {PartOf(v)})
      else if s.SumI? || s.MinI? || s.MaxI? then
        if AsI64(v).Some? then UpdateInt(s, AsI64(v).value) else s
      else if s.MinS? || s.MaxS? then
        if AsStr(v).Some? then UpdateStr(s, AsStr(v).value) else s
      else
        var x := AsF64(rt.lib, v);
        if x.Some? then UpdateFloat(rt.lib, s, x.value) else s
  }

  function Finalize(rt: Runtime, s: AggState): Json {
    match s
    case CountOf(n) => JInt(n)
    case SumI(total, seen) =>
      if !seen then JNull
      else if NULL_LONG <= total <= MAX_I64 then JInt(total)
      else JsonOfF64(rt.lib.ofInt(total))
    case SumF(sum, seen) => if !seen then JNull else JsonOfF64(sum)
    case AvgF(sum, n) => if n == 0 then JNull else JsonOfF64(rt.lib.div(sum, rt.lib.ofInt(n)))
    case MinI(x, seen) => if !seen then JNull else JInt(x)
    case MaxI(x, seen) => if !seen then JNull else JInt(x)
    case MinF(x, seen) => if !seen then JNull else JsonOfF64(x)
    case MaxF(x, seen) => if !seen then JNull else JsonOfF64(x)
    case MinS(x, seen) => if !seen then JNull else JString(x)
    case MaxS(x, seen) => if !seen then JNull else JString(x)
    case DistinctOf(parts) => JInt(|parts|)
    case Sample(values, q) => if values == [] then JNull else JsonOfF64(rt.interpolate(values, q))
    case Spread(n, _, m2, kind) =>
      if n == 0 then JNull
      else
        match kind
        case VarPop => JsonOfF64(rt.lib.div(m2, rt.lib.ofInt(n)))
        case StddevPop => JsonOfF64(rt.sqrt(rt.lib.div(m2, rt.lib.ofInt(n))))
        case VarSamp => if n < 2 then JNull else JsonOfF64(rt.lib.div(m2, rt.lib.ofInt(n - 1)))
        case StddevSamp => if n < 2 then JNull else JsonOfF64(rt.sqrt(rt.lib.div(m2, rt.lib.ofInt(n - 1))))
  }

  // ---- what the accumulators mean ----

  function Accumulate(rt: Runtime, s: AggState, inputs: seq<Option<Value>>): AggState {
    if inputs == [] then s
    else Update(rt, Accumulate(rt, s, inputs[..|inputs| - 1]), inputs[|inputs| - 1])
  }

  /** The values an accumulator takes from its inputs, in order. */
  function Taken<T>(inputs: seq<Option<Value>>, take: Value -> Option<T>): seq<T> {
    if inputs == [] then [] else Taken(inputs[..|inputs| - 1], take) + TakenOne(inputs[|inputs| - 1], take)
  }

  function TakenOne<T>(input: Option<Value>, take: Value -> Option<T>): seq<T> {
    if input.Some? && take(input.value).Some? then [take(input.value).value] else []
  }

  function Total(xs: seq<I64>): int { if xs == [] then 0 else Total(xs[..|xs| - 1]) + xs[|xs| - 1] }

  /** SUM over integers is the exact sum of the non-null inputs; with none, it stays unseen. */
  lemma {:induction false} SumMeaning(rt: Runtime, inputs: seq<Option<Value>>)
    ensures Accumulate(rt, SumI(0, false), inputs) == Summed(Taken(inputs, AsI64))
  {
    if inputs != [] {
      SumMeaning(rt, inputs[..|inputs| - 1]);
      SumStep(rt, Taken(inputs[..|inputs| - 1], AsI64), inputs[|inputs| - 1]);
    }
  }

  function Summed(xs: seq<I64>): AggState { SumI(Total(xs), xs != []) }

  lemma SumStep(rt: Runtime, xs: seq<I64>, input: Option<Value>)
    ensures Update(rt, Summed(xs), input) == Summed(xs + TakenOne(input, AsI64))
  {
    if input.Some? && AsI64(input.value).Some? {
      TotalSnoc(xs, AsI64(input.value).value);
    } else {
      assert xs + [] == xs;
    }
  }

  lemma TotalSnoc(xs: seq<I64>, x: I64)
    ensures Total(xs + [x]) == Total(xs) + x
  {
    assert (xs + [x])[..|xs|] == xs;
  }

  /** COUNT counts every input of COUNT(*) and every non-null input of COUNT(col). */
  lemma {:induction false} CountMeaning(rt: Runtime, inputs: seq<Option<Value>>)
    ensures Accumulate(rt, CountOf(0), inputs) ==
            CountOf(|set i | 0 <= i < |inputs| && (inputs[i].None? || !inputs[i].value.IsNull())|)
  {
    if inputs != [] {
      CountMeaning(rt, inputs[..|inputs| - 1]);
      CountedSnoc(inputs);
    }
  }

  predicate Counts(input: Option<Value>) { input.None? || !input.value.IsNull() }

  ghost function Counted(inputs: seq<Option<Value>>): set<int> {
    set i | 0 <= i < |inputs| && (inputs[i].None? || !inputs[i].value.IsNull())
  }

  lemma CountedSnoc(inputs: seq<Option<Value>>)
    requires inputs != []
    ensures |Counted(inputs)| == |Counted(inputs[..|inputs| - 1])| + if Counts(inputs[|inputs| - 1]) then 1 else 0
  {
    var front, last := inputs[..|inputs| - 1], |inputs| - 1;
    assert forall i :: 0 <= i < last ==> front[i] == inputs[i];
    assert last !in Counted(front);
    assert Counted(inputs) == if Counts(inputs[last]) then Counted(front) + {last} else Counted(front);
  }

  /** COUNT(DISTINCT col) collects exactly the group parts of the non-null inputs. */
  lemma {:induction false} DistinctMeaning(rt: Runtime, inputs: seq<Option<Value>>)
    ensures Accumulate(rt, DistinctOf({}), inputs) ==
            DistinctOf(set i | 0 <= i < |inputs| && inputs[i].Some? && !inputs[i].value.IsNull() ::
                         PartOf(inputs[i].value))
  {
    if inputs != [] {
      var front := inputs[..|inputs| - 1];
      DistinctMeaning(rt, front);
      var last := inputs[|front|];
      var before := set i | 0 <= i < |front| && front[i].Some? && !front[i].value.IsNull() ::
                      PartOf(front[i].value);
      var after := set i | 0 <= i < |inputs| && inputs[i].Some? && !inputs[i].value.IsNull() ::
                     PartOf(inputs[i].value);
      assert forall i :: 0 <= i < |front| ==> inputs[i] == front[i];
      assert after == if last.Some? && !last.value.IsNull() then before + {PartOf(last.value)} else before;
    }
  }

  /** `better` is a strict weak order on the values that satisfy `ok`. */
  ghost predicate StrictOrder<T(!new)>(better: (T, T) -> bool, ok: T -> bool) {
    && (forall x :: ok(x) ==> !better(x, x))
    && (forall x, y, z :: ok(x) && ok(y) && ok(z) && better(x, y) && better(y, z) ==> better(x, z))
    && (forall x, y, z :: ok(x) && ok(y) && ok(z) && !better(x, y) && !better(y, z) ==> !better(x, z))
  }

  /** `best` is one of `xs` and none of them is better. */
  ghost predicate Extreme<T(!new)>(xs: seq<T>, better: (T, T) -> bool, best: T) {
    best in xs && forall x :: x in xs ==> !better(x, best)
  }

  /** What a MIN or MAX state holds after taking `xs`. */
  ghost predicate Holds<T(!new)>(xs: seq<T>, better: (T, T) -> bool, current: T, seen: bool) {
    (seen <==> xs != []) && (seen ==> Extreme(xs, better, current))
  }

  lemma BetterKeepsExtreme<T(!new)>(xs: seq<T>, better: (T, T) -> bool, ok: T -> bool, current: T, seen: bool, x: T)
    requires StrictOrder(better, ok) && Holds(xs, better, current, seen)
    requires ok(x) && forall y :: y in xs ==> ok(y)
    ensures Holds(xs + [x], better, Better(current, seen, x, better), true)
  {
    var best := Better(current, seen, x, better);
    forall y | y in xs + [x] ensures !better(y, best) {
      if seen && y in xs {
        assert !better(y, current);
        assert ok(y) && ok(current) && ok(x);
      }
    }
  }

  lemma IntOrders()
    ensures StrictOrder(IntLess, (x: I64) => true) && StrictOrder(IntMore, (x: I64) => true)
  {
  }

  lemma StringOrders()
    ensures StrictOrder(StrLess, (x: string) => true) && StrictOrder(StrMore, (x: string) => true)
  {
    forall x: string, y: string
      ensures CompareString(y, x) == CompareString(x, y).Reverse() && (CompareString(x, y) == Equal <==> x == y)
    {
      CompareStringAntisymmetric(x, y);
    }
    forall x: string, y: string, z: string | CompareString(x, y) != Greater && CompareString(y, z) != Greater
      ensures CompareString(x, z) != Greater
    {
      CompareStringTransitive(x, y, z);
    }
  }

  lemma F64Orders()
    ensures StrictOrder(F64Less, (x: F64) => !IsNaN(x)) && StrictOrder(F64More, (x: F64) => !IsNaN(x))
  {
  }

  /** MIN and MAX over integers: the least and the greatest of the non-null inputs. */
  lemma {:induction false} IntExtremes(rt: Runtime, inputs: seq<Option<Value>>)
    ensures var s := Accumulate(rt, MinI(MAX_I64, false), inputs);
            s.MinI? && Holds(Taken(inputs, AsI64), IntLess, s.least, s.seen)
    ensures var s := Accumulate(rt, MaxI(NULL_LONG, false), inputs);
            s.MaxI? && Holds(Taken(inputs, AsI64), IntMore, s.greatest, s.seen)
  {
    if inputs != [] {
      var front, last := inputs[..|inputs| - 1], inputs[|inputs| - 1];
      IntExtremes(rt, front);
      var t := Taken(front, AsI64);
      if last.Some? && AsI64(last.value).Some? {
        IntOrders();
        var x := AsI64(last.value).value;
        var lo, hi := Accumulate(rt, MinI(MAX_I64, false), front), Accumulate(rt, MaxI(NULL_LONG, false), front);
        BetterKeepsExtreme(t, IntLess, (x: I64) => true, lo.least, lo.seen, x);
        BetterKeepsExtreme(t, IntMore, (x: I64) => true, hi.greatest, hi.seen, x);
      } else {
        assert t + [] == t;
      }
    }
  }

  /** MIN and MAX over strings. */
  lemma {:induction false} StringExtremes(rt: Runtime, inputs: seq<Option<Value>>)
    ensures var s := Accumulate(rt, MinS("", false), inputs);
            s.MinS? && Holds(Taken(inputs, AsStr), StrLess, s.leastS, s.seen)
    ensures var s := Accumulate(rt, MaxS("", false), inputs);
            s.MaxS? && Holds(Taken(inputs, AsStr), StrMore, s.greatestS, s.seen)
  {
    if inputs != [] {
      var front, last := inputs[..|inputs| - 1], inputs[|inputs| - 1];
      StringExtremes(rt, front);
      var t := Taken(front, AsStr);
      if last.Some? && AsStr(last.value).Some? {
        StringOrders();
        var x := AsStr(last.value).value;
        var lo, hi := Accumulate(rt, MinS("", false), front), Accumulate(rt, MaxS("", false), front);
        BetterKeepsExtreme(t, StrLess, (x: string) => true, lo.leastS, lo.seen, x);
        BetterKeepsExtreme(t, StrMore, (x: string) => true, hi.greatestS, hi.seen, x);
      } else {
        assert t + [] == t;
      }
    }
  }

  function FloatOf(rt: Runtime): Value -> Option<F64> { (v: Value) => AsF64(rt.lib, v) }

  lemma {:induction false} TakenNumbers(rt: Runtime, inputs: seq<Option<Value>>, x: F64)
    requires forall n :: !IsNaN(rt.lib.ofInt(n))
    requires x in Taken(inputs, FloatOf(rt))
    ensures !IsNaN(x)
  {
    if inputs != [] && x in Taken(inputs[..|inputs| - 1], FloatOf(rt)) {
      TakenNumbers(rt, inputs[..|inputs| - 1], x);
    }
  }

  /** One step of MIN and of MAX over doubles. */
  lemma FloatExtremeStep(rt: Runtime, t: seq<F64>, lo: AggState, hi: AggState, input: Option<Value>)
    requires (forall y :: y in t ==> !IsNaN(y)) && forall n :: !IsNaN(rt.lib.ofInt(n))
    requires lo.MinF? && Holds(t, F64Less, lo.leastF, lo.seen) && hi.MaxF? && Holds(t, F64More, hi.greatestF, hi.seen)
    ensures var t' := t + TakenOne(input, FloatOf(rt));
            var lo', hi' := Update(rt, lo, input), Update(rt, hi, input);
            && lo'.MinF? && Holds(t', F64Less, lo'.leastF, lo'.seen)
            && hi'.MaxF? && Holds(t', F64More, hi'.greatestF, hi'.seen)
  {
    if input.Some? && AsF64(rt.lib, input.value).Some? {
      F64Orders();
      var x := AsF64(rt.lib, input.value).value;
      BetterKeepsExtreme(t, F64Less, (x: F64) => !IsNaN(x), lo.leastF, lo.seen, x);
      BetterKeepsExtreme(t, F64More, (x: F64) => !IsNaN(x), hi.greatestF, hi.seen, x);
    } else {
      assert t + [] == t;
    }
  }

  /** MIN and MAX over doubles, by value; integers converted to doubles are numbers. */
  lemma {:induction false} FloatExtremes(rt: Runtime, inputs: seq<Option<Value>>)
    requires forall n :: !IsNaN(rt.lib.ofInt(n))
    ensures var s := Accumulate(rt, MinF(INFINITY, false), inputs);
            s.MinF? && Holds(Taken(inputs, FloatOf(rt)), F64Less, s.leastF, s.seen)
    ensures var s := Accumulate(rt, MaxF(NEG_INFINITY, false), inputs);
            s.MaxF? && Holds(Taken(inputs, FloatOf(rt)), F64More, s.greatestF, s.seen)
  {
    if inputs != [] {
      var front, last := inputs[..|inputs| - 1], inputs[|inputs| - 1];
      FloatExtremes(rt, front);
      var t := Taken(front, FloatOf(rt));
      forall y | y in t ensures !IsNaN(y) { TakenNumbers(rt, front, y); }
      FloatExtremeStep(rt, t, Accumulate(rt, MinF(INFINITY, false), front),
                       Accumulate(rt, MaxF(NEG_INFINITY, false), front), last);
    }
  }

  function AddAll(lib: Library, xs: seq<F64>): F64 {
    if xs == [] then PlusZero else lib.add(AddAll(lib, xs[..|xs| - 1]), xs[|xs| - 1])
  }

  lemma AddAllSnoc(lib: Library, xs: seq<F64>, x: F64)
    ensures AddAll(lib, xs + [x]) == lib.add(AddAll(lib, xs), x)
  {
    assert (xs + [x])[..|xs|] == xs;
  }

  function SummedF(lib: Library, xs: seq<F64>): AggState { SumF(AddAll(lib, xs), xs != []) }

  function Averaged(lib: Library, xs: seq<F64>): AggState { AvgF(AddAll(lib, xs), |xs|) }

  lemma FloatTaken(rt: Runtime, xs: seq<F64>, x: F64, q: F64)
    ensures var xs' := xs + [x];
            && UpdateFloat(rt.lib, SummedF(rt.lib, xs), x) == SummedF(rt.lib, xs')
            && UpdateFloat(rt.lib, Averaged(rt.lib, xs), x) == Averaged(rt.lib, xs')
            && UpdateFloat(rt.lib, Sample(xs, q), x) == Sample(xs', q)
  {
    AddAllSnoc(rt.lib, xs, x);
  }

  lemma FloatStep(rt: Runtime, xs: seq<F64>, input: Option<Value>, q: F64)
    ensures var xs' := xs + TakenOne(input, FloatOf(rt));
            && Update(rt, SummedF(rt.lib, xs), input) == SummedF(rt.lib, xs')
            && Update(rt, Averaged(rt.lib, xs), input) == Averaged(rt.lib, xs')
            && Update(rt, Sample(xs, q), input) == Sample(xs', q)
  {
    if input.Some? && AsF64(rt.lib, input.value).Some? {
      FloatTaken(rt, xs, AsF64(rt.lib, input.value).value, q);
    } else {
      assert xs + [] == xs;
    }
  }

  /** SUM and AVG over doubles add the non-null inputs in row order; a percentile collects them. */
  lemma {:induction false} FloatFolds(rt: Runtime, inputs: seq<Option<Value>>, q: F64)
    ensures var xs := Taken(inputs, FloatOf(rt));
            && Accumulate(rt, SumF(PlusZero, false), inputs) == SummedF(rt.lib, xs)
            && Accumulate(rt, AvgF(PlusZero, 0), inputs) == Averaged(rt.lib, xs)
            && Accumulate(rt, Sample([], q), inputs) == Sample(xs, q)
  {
    if inputs != [] {
      FloatFolds(rt, inputs[..|inputs| - 1], q);
      FloatStep(rt, Taken(inputs[..|inputs| - 1], FloatOf(rt)), inputs[|inputs| - 1], q);
    }
  }
}
