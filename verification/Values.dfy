/**
 Cell values and the column store.

 A value carries its column type in its constructor.  As in the source, null is
 a sentinel of each type: NaN, the minimum integer, or `None`.
 */
module Values {
  import opened Wrappers
  import opened Float64
  import opened Orders

  type I64 = x: int | -0x8000_0000_0000_0000 <= x < 0x8000_0000_0000_0000
  type I32 = x: int | -0x8000_0000 <= x < 0x8000_0000
  type Byte = x: int | 0 <= x < 256

  const NULL_LONG: I64 := -0x8000_0000_0000_0000
  const NULL_INT: I32 := -0x8000_0000
  const NULL_TIMESTAMP: I64 := -0x8000_0000_0000_0000

  datatype ColumnType = DoubleType | LongType | IntType | StringType | BoolType | TimestampType | BytesType

  datatype Value =
    | Double(d: F64)
    | Long(n: I64)
    | Int(i: I32)
    | String(s: Option<string>)
    | Bool(b: Option<bool>)
    | Timestamp(t: I64)
    | Bytes(bytes: Option<seq<Byte>>)
    | Null
  {
    predicate IsNull() {
      match this
      case Double(d) => IsNaN(d)
      case Long(n) => n == NULL_LONG
      case Int(i) => i == NULL_INT
      case String(s) => s.None?
      case Bool(b) => b.None?
      case Timestamp(t) => t == NULL_TIMESTAMP
      case Bytes(bytes) => bytes.None?
      case Null => true
    }

    predicate HasType(ty: ColumnType) {
      match ty
      case DoubleType => Double?
      case LongType => Long?
      case IntType => Int?
      case StringType => String?
      case BoolType => Bool?
      case TimestampType => Timestamp?
      case BytesType => Bytes?
    }
  }

  /** The null sentinel of a column type. */
  function NullOf(ty: ColumnType): (v: Value)
    ensures v.HasType(ty) && v.IsNull()
  {
    match ty
    case DoubleType => Double(QuietNaN)
    case LongType => Long(NULL_LONG)
    case IntType => Int(NULL_INT)
    case StringType => String(None)
    case BoolType => Bool(None)
    case TimestampType => Timestamp(NULL_TIMESTAMP)
    case BytesType => Bytes(None)
  }

  // ---- byte strings as text ----

  function Symbol(n: nat): (c: char)
    requires n < 64
    ensures c != '='
  {
    if n < 26 then ('A' as int + n) as char
    else if n < 52 then ('a' as int + n - 26) as char
    else if n < 62 then ('0' as int + n - 52) as char
    else if n == 62 then '+' else '/'
  }

  lemma SymbolInjective(m: nat, n: nat)
    requires m < 64 && n < 64 && Symbol(m) == Symbol(n)
    ensures m == n
  {
  }

  /** The four characters of the first three bytes, padded. */
  function Quartet(bytes: seq<Byte>): (s: string)
    requires bytes != []
    ensures |s| == 4
  {
    var x, y, z := bytes[0], ByteAt(bytes, 1), ByteAt(bytes, 2);
    [ Symbol(x / 4), Symbol(x % 4 * 16 + y / 16),
      if |bytes| > 1 then Symbol(y % 16 * 4 + z / 64) else '=',
      if |bytes| > 2 then Symbol(z % 64) else '=' ]
  }

  /** Standard base64 with padding. */
  function Base64(bytes: seq<Byte>): string
    decreases |bytes|
  {
    if bytes == [] then "" else Quartet(bytes) + if |bytes| > 3 then Base64(bytes[3..]) else ""
  }

  function First(n: nat, bytes: seq<Byte>): seq<Byte> { if |bytes| < n then bytes else bytes[..n] }

  /** The four sextets of three bytes determine them. */
  lemma SextetsDetermine(x: Byte, y: Byte, z: Byte, x': Byte, y': Byte, z': Byte)
    requires x / 4 == x' / 4 && x % 4 * 16 + y / 16 == x' % 4 * 16 + y' / 16
    ensures x == x' && y / 16 == y' / 16
    ensures y % 16 * 4 + z / 64 == y' % 16 * 4 + z' / 64 ==> y == y' && (z % 64 == z' % 64 ==> z == z')
  {
  }

  function ByteAt(bytes: seq<Byte>, i: nat): Byte { if i < |bytes| then bytes[i] else 0 }

  lemma QuartetInjective(a: seq<Byte>, b: seq<Byte>)
    requires a != [] && b != [] && Quartet(a) == Quartet(b)
    ensures First(3, a) == First(3, b)
  {
    var s, t := Quartet(a), Quartet(b);
    assert s[0] == t[0] && s[1] == t[1] && s[2] == t[2] && s[3] == t[3];
    var x, y, z, x', y', z' := a[0], ByteAt(a, 1), ByteAt(a, 2), b[0], ByteAt(b, 1), ByteAt(b, 2);
    SymbolInjective(x / 4, x' / 4);
    SymbolInjective(x % 4 * 16 + y / 16, x' % 4 * 16 + y' / 16);
    if |a| > 1 { SymbolInjective(y % 16 * 4 + z / 64, y' % 16 * 4 + z' / 64); }
    if |a| > 2 { SymbolInjective(z % 64, z' % 64); }
    SextetsDetermine(x, y, z, x', y', z');
  }

  lemma {:induction false} Base64Injective(a: seq<Byte>, b: seq<Byte>)
    requires Base64(a) == Base64(b)
    ensures a == b
    decreases |a|
  {
    if a != [] && b != [] {
      var s, t := Base64(a), Base64(b);
      assert s[..4] == Quartet(a) && t[..4] == Quartet(b);
      QuartetInjective(a, b);
      assert s[4..] == (if |a| > 3 then Base64(a[3..]) else "") && t[4..] == (if |b| > 3 then Base64(b[3..]) else "");
      if |a| > 3 && |b| > 3 {
        Base64Injective(a[3..], b[3..]);
        assert a == a[..3] + a[3..] && b == b[..3] + b[3..];
      }
    }
  }

  type Row = seq<Value>

  predicate RowTyped(types: seq<ColumnType>, row: Row) {
    |row| == |types| && forall c :: 0 <= c < |types| ==> row[c].HasType(types[c])
  }

  /** A table: one type per column, and the rows by slot number. */
  datatype Store = Store(types: seq<ColumnType>, rows: seq<Row>) {
    ghost predicate Valid() {
      forall r :: 0 <= r < |rows| ==> RowTyped(types, rows[r])
    }
  }

  // ---- ORDER BY ----

  function CompareDouble(a: F64, b: F64): Ordering {
    if IsNaN(a) then (if IsNaN(b) then Equal else Less)
    else if IsNaN(b) then Greater
    else if Float64.Less(Denote(a), Denote(b)) then Less
    else if Denote(a) == Denote(b) then Equal
    else Greater
  }

  function CompareOption<T>(a: Option<T>, b: Option<T>, cmp: (T, T) -> Ordering): Ordering {
    match (a, b)
    case (None, None) => Equal
    case (None, _) => Less
    case (_, None) => Greater
    case (Some(x), Some(y)) => cmp(x, y)
  }

  function CompareBool(a: bool, b: bool): Ordering {
    if a == b then Equal else if b then Less else Greater
  }

  /** Two cells of one column.  Nulls come first; byte strings all compare equal. */
  function CompareValues(a: Value, b: Value): Ordering {
    match (a, b)
    case (Double(x), Double(y)) => CompareDouble(x, y)
    case (Long(x), Long(y)) => CompareInt(x, y)
    case (Int(x), Int(y)) => CompareInt(x, y)
    case (String(x), String(y)) => CompareOption(x, y, CompareString)
    case (Bool(x), Bool(y)) => CompareOption(x, y, CompareBool)
    case (Timestamp(x), Timestamp(y)) => CompareInt(x, y)
    case _ => Equal
  }

  lemma CompareValuesAntisymmetric(a: Value, b: Value)
    ensures CompareValues(b, a) == CompareValues(a, b).Reverse()
    ensures CompareValues(a, a) == Equal
  {
    if a.String? && b.String? && a.s.Some? && b.s.Some? {
      CompareStringAntisymmetric(a.s.value, b.s.value);
    }
    if a.String? && a.s.Some? { CompareStringAntisymmetric(a.s.value, a.s.value); }
    if a.Double? && b.Double? && !IsNaN(a.d) && !IsNaN(b.d) {
      LessIsStrict(Denote(a.d), Denote(b.d));
    }
    if a.Double? && !IsNaN(a.d) { LessIsStrict(Denote(a.d), Denote(a.d)); }
  }

  lemma CompareValuesTransitive(a: Value, b: Value, c: Value, ty: ColumnType)
    requires a.HasType(ty) && b.HasType(ty) && c.HasType(ty)
    requires CompareValues(a, b) != Greater && CompareValues(b, c) != Greater
    ensures CompareValues(a, c) != Greater
    ensures CompareValues(a, b) == Less || CompareValues(b, c) == Less ==> CompareValues(a, c) == Less
  {
    if ty == StringType && a.s.Some? && b.s.Some? && c.s.Some? {
      CompareStringTransitive(a.s.value, b.s.value, c.s.value);
      CompareStringAntisymmetric(a.s.value, b.s.value);
      CompareStringAntisymmetric(b.s.value, c.s.value);
      CompareStringAntisymmetric(a.s.value, c.s.value);
      if CompareString(a.s.value, c.s.value) == Equal {
        CompareStringTransitive(b.s.value, c.s.value, a.s.value);
        CompareStringTransitive(c.s.value, a.s.value, b.s.value);
      }
    }
  }

  // ---- the row comparator built from an ORDER BY list ----

  datatype SortKey = SortKey(col: nat, ascending: bool)

  predicate KeysFit(keys: seq<SortKey>, types: seq<ColumnType>) {
    forall k :: 0 <= k < |keys| ==> keys[k].col < |types|
  }

  function CompareRows(keys: seq<SortKey>, a: Row, b: Row): Ordering
    requires forall k :: 0 <= k < |keys| ==> keys[k].col < |a| && keys[k].col < |b|
  {
    if keys == [] then Equal
    else
      var ord := CompareValues(a[keys[0].col], b[keys[0].col]);
      var ord := if keys[0].ascending then ord else ord.Reverse();
      if ord != Equal then ord else CompareRows(keys[1..], a, b)
  }

  lemma {:induction false} CompareRowsAntisymmetric(keys: seq<SortKey>, a: Row, b: Row)
    requires forall k :: 0 <= k < |keys| ==> keys[k].col < |a| && keys[k].col < |b|
    ensures CompareRows(keys, b, a) == CompareRows(keys, a, b).Reverse()
    ensures CompareRows(keys, a, a) == Equal
  {
    if keys != [] {
      CompareValuesAntisymmetric(a[keys[0].col], b[keys[0].col]);
      CompareRowsAntisymmetric(keys[1..], a, b);
    }
  }

  lemma {:induction false} CompareRowsTransitive(keys: seq<SortKey>, a: Row, b: Row, c: Row, types: seq<ColumnType>)
    requires KeysFit(keys, types) && RowTyped(types, a) && RowTyped(types, b) && RowTyped(types, c)
    requires CompareRows(keys, a, b) != Greater && CompareRows(keys, b, c) != Greater
    ensures CompareRows(keys, a, c) != Greater
  {
    if keys != [] {
      var k := keys[0].col;
      var x, y, z := a[k], b[k], c[k];
      CompareValuesAntisymmetric(x, y);
      CompareValuesAntisymmetric(y, z);
      CompareValuesAntisymmetric(x, z);
      if keys[0].ascending {
        CompareValuesTransitive(x, y, z, types[k]);
      } else {
        CompareValuesTransitive(z, y, x, types[k]);
      }
      if CompareValues(x, y) == Equal && CompareValues(y, z) == Equal {
        CompareRowsTransitive(keys[1..], a, b, c, types);
      }
    }
  }

  /** The order on slot numbers that the sort closures of the executor build. */
  predicate RowLe(keys: seq<SortKey>, rows: seq<Row>, a: nat, b: nat) {
    // Slots outside the table never reach the comparator; they sort last.
    if b >= |rows| then true
    else if a >= |rows| then false
    else if (forall k :: 0 <= k < |keys| ==> keys[k].col < |rows[a]| && keys[k].col < |rows[b]|)
    then CompareRows(keys, rows[a], rows[b]) != Greater
    else true
  }

  function RowOrder(keys: seq<SortKey>, rows: seq<Row>): (nat, nat) -> bool {
    (a: nat, b: nat) => RowLe(keys, rows, a, b)
  }

  lemma RowOrderIsPreorder(keys: seq<SortKey>, store: Store)
    requires store.Valid() && KeysFit(keys, store.types)
    ensures TotalPreorder(RowOrder(keys, store.rows))
  {
    var le := RowOrder(keys, store.rows);
    forall a: nat, b: nat ensures le(a, b) || le(b, a) {
      if a < |store.rows| && b < |store.rows| {
        CompareRowsAntisymmetric(keys, store.rows[a], store.rows[b]);
      }
    }
    forall a: nat, b: nat, c: nat | le(a, b) && le(b, c) ensures le(a, c) {
      if a < |store.rows| && b < |store.rows| && c < |store.rows| {
        CompareRowsTransitive(keys, store.rows[a], store.rows[b], store.rows[c], store.types);
      }
    }
  }
}
