/**
 The NVFIX payload codec: `name=value` fields, each ended by the byte 0x01 (SOH).

 Two clients decode it, one by scanning for separators, one by splitting on them.
 Text encoding is library code; `TextCodec` holds the encoder and the two decoders
 (one total, one that rejects malformed input).
 */
module Nvfix {
  import opened Wrappers
  import opened Values

  type Bytes = seq<Byte>

  const SOH: Byte := 0x01
  const EQUALS: Byte := 0x3d

  datatype TextCodec = TextCodec(enc: string -> Bytes, decTs: Bytes -> string, decPy: Bytes -> Option<string>)

  // ---- encoding ----

  /** `Scalar` is a number or boolean, already printed. */
  datatype FieldValue = NullValue | Text(s: string) | Scalar(printed: string) | Nested

  datatype Field = Field(name: string, value: FieldValue)

  datatype EncodeError = IllegalName | SohInValue | NestedValue

  datatype Encoded = Ok(bytes: Bytes) | Err(error: EncodeError)

  predicate LegalName(name: string) { name != "" && '=' !in name && '\U{0001}' !in name }

  function ValueText(v: FieldValue): string {
    match v case NullValue => "" case Text(s) => s case Scalar(p) => p case Nested => ""
  }

  function EncodeField(codec: TextCodec, f: Field): Encoded {
    if !LegalName(f.name) then Err(IllegalName)
    else if f.value.Text? && '\U{0001}' in f.value.s then Err(SohInValue)
    else if f.value.Nested? then Err(NestedValue)
    else Ok(codec.enc(f.name) + [EQUALS] + codec.enc(ValueText(f.value)) + [SOH])
  }

  function EncodeAll(codec: TextCodec, record: seq<Field>): Encoded {
    if record == [] then Ok([])
    else
      match EncodeAll(codec, record[..|record| - 1])
      case Err(e) => Err(e)
      case Ok(front) =>
        match EncodeField(codec, record[|record| - 1])
        case Err(e) => Err(e)
        case Ok(last) => Ok(front + last)
  }

  method Encode(codec: TextCodec, record: seq<Field>) returns (r: Encoded)
    ensures r == EncodeAll(codec, record)
  {
    var out: Bytes := [];
    for i := 0 to |record|
      invariant EncodeAll(codec, record[..i]) == Ok(out)
    {
      assert record[..i + 1][..i] == record[..i];
      var f := EncodeField(codec, record[i]);
      if f.Err? {
        ErrorsPropagate(codec, record, i + 1);
        return f;
      }
      out := out + f.bytes;
    }
    assert record[..|record|] == record;
    return Ok(out);
  }

  /** The first bad field decides. */
  lemma {:induction false} ErrorsPropagate(codec: TextCodec, record: seq<Field>, n: nat)
    requires n <= |record| && EncodeAll(codec, record[..n]).Err?
    ensures EncodeAll(codec, record) == EncodeAll(codec, record[..n])
    decreases |record| - n
  {
    if n == |record| {
      assert record[..n] == record;
    } else {
      assert record[..n + 1][..n] == record[..n];
      ErrorsPropagate(codec, record, n + 1);
    }
  }

  // ---- splitting ----

  function IndexOf(b: Bytes, x: Byte): (i: nat)
    ensures i <= |b| && (forall j :: 0 <= j < i ==> b[j] != x) && (i < |b| ==> b[i] == x)
  {
    if b == [] || b[0] == x then 0 else 1 + IndexOf(b[1..], x)
  }

  /** `bytes.split`: the pieces between separators, empty ones included. */
  function Split(b: Bytes): (pieces: seq<Bytes>)
    ensures pieces != []
    decreases |b|
  {
    var i := IndexOf(b, SOH);
    if i == |b| then [b] else [b[..i]] + Split(b[i + 1..])
  }

  lemma IndexOfUnique(b: Bytes, x: Byte, i: nat)
    requires i <= |b| && (forall j :: 0 <= j < i ==> b[j] != x) && (i < |b| ==> b[i] == x)
    ensures IndexOf(b, x) == i
  {
  }

  // ---- decoding ----

  datatype Decoded = Record(fields: map<string, string>) | MissingEquals | BadText

  /** A JavaScript object ignores a string assigned to `__proto__`. */
  function AssignTs(fields: map<string, string>, name: string, value: string): map<string, string> {
    if name == "__proto__" then fields else fields[name := value]
  }

  function StepTs(codec: TextCodec, fields: map<string, string>, field: Bytes): Decoded {
    if field == [] then Record(fields)
    else
      var eq := IndexOf(field, EQUALS);
      if eq == |field| then MissingEquals
      else Record(AssignTs(fields, codec.decTs(field[..eq]), codec.decTs(field[eq + 1..])))
  }

  function StepPy(codec: TextCodec, fields: map<string, string>, field: Bytes): Decoded {
    if field == [] then Record(fields)
    else
      var eq := IndexOf(field, EQUALS);
      if eq == |field| then MissingEquals
      else
        match (codec.decPy(field[..eq]), codec.decPy(field[eq + 1..]))
        case (Some(name), Some(value)) => Record(fields[name := value])
        case _ => BadText
  }

  type Step = (map<string, string>, Bytes) -> Decoded

  function TsStep(codec: TextCodec): Step { (fields, field) => StepTs(codec, fields, field) }

  function PyStep(codec: TextCodec): Step { (fields, field) => StepPy(codec, fields, field) }

  /** Take the pieces in order; the first error ends the run. */
  function Run(step: Step, fields: map<string, string>, pieces: seq<Bytes>): Decoded
    decreases |pieces|
  {
    if pieces == [] then Record(fields)
    else
      match step(fields, pieces[0])
      case Record(fields') => Run(step, fields', pieces[1..])
      case error => error
  }

  /** What the bytes from `start` on add to `fields`; past the end, nothing. */
  function Remaining(codec: TextCodec, fields: map<string, string>, bytes: Bytes, start: nat): Decoded
    requires start <= |bytes| + 1
  {
    if start == |bytes| + 1 then Record(fields) else Run(TsStep(codec), fields, Split(bytes[start..]))
  }

  /** The field that ends at `i` is the next piece; then comes what follows the separator. */
  lemma NextPiece(codec: TextCodec, fields: map<string, string>, bytes: Bytes, start: nat, i: nat)
    requires start <= i <= |bytes| && (i < |bytes| ==> bytes[i] == SOH)
    requires forall j :: start <= j < i ==> bytes[j] != SOH
    ensures Remaining(codec, fields, bytes, start) ==
            match StepTs(codec, fields, bytes[start..i])
            case Record(fields') => Remaining(codec, fields', bytes, i + 1)
            case error => error
  {
    var rest := bytes[start..];
    IndexOfUnique(rest, SOH, i - start);
    assert rest[..i - start] == bytes[start..i];
    if i < |bytes| {
      assert rest[i - start + 1..] == bytes[i + 1..];
      var later := Split(bytes[i + 1..]);
      assert ([bytes[start..i]] + later)[1..] == later;
    } else {
      assert rest == bytes[start..i];
      var step := StepTs(codec, fields, rest);
      if step.Record? { assert Run(TsStep(codec), step.fields, Split(rest)[1..]) == step; }
    }
  }

  /** One field of the scanning decoder; an empty one adds nothing. */
  method TakeField(codec: TextCodec, fields: map<string, string>, field: Bytes) returns (r: Decoded)
    ensures r == StepTs(codec, fields, field)
  {
    if field == [] { return Record(fields); }
    var eq := IndexOf(field, EQUALS);
    if eq == |field| { return MissingEquals; }
    return Record(AssignTs(fields, codec.decTs(field[..eq]), codec.decTs(field[eq + 1..])));
  }

  /** The scanning decoder: one pass over the bytes with the start of the current field. */
  method DecodeTs(codec: TextCodec, bytes: Bytes) returns (r: Decoded)
    ensures r == Run(TsStep(codec), map[], Split(bytes))
  {
    var fields: map<string, string> := map[];
    var start := 0;
    ghost var goal := Remaining(codec, fields, bytes, 0);
    assert bytes[0..] == bytes;
    for i := 0 to |bytes| + 1
      invariant start <= i
      invariant i == |bytes| + 1 ==> start == i
      invariant forall j :: start <= j < i ==> bytes[j] != SOH
      invariant Remaining(codec, fields, bytes, start) == goal
    {
      if i == |bytes| || bytes[i] == SOH {
        NextPiece(codec, fields, bytes, start, i);
        var after := TakeField(codec, fields, bytes[start..i]);
        if !after.Record? { return after; }
        fields := after.fields;
        start := i + 1;
      }
    }
    return Record(fields);
  }

  /** The splitting decoder. */
  method DecodePy(codec: TextCodec, bytes: Bytes) returns (r: Decoded)
    ensures r == Run(PyStep(codec), map[], Split(bytes))
  {
    var fields: map<string, string> := map[];
    var pieces := Split(bytes);
    for i := 0 to |pieces|
      invariant Run(PyStep(codec), fields, pieces[i..]) == Run(PyStep(codec), map[], pieces)
    {
      var field := pieces[i];
      assert pieces[i..][0] == field && pieces[i..][1..] == pieces[i + 1..];
      if field != [] {
        var eq := IndexOf(field, EQUALS);
        if eq == |field| { return MissingEquals; }
        var name, value := codec.decPy(field[..eq]), codec.decPy(field[eq + 1..]);
        if name.None? || value.None? { return BadText; }
        fields := fields[name.value := value.value];
      }
    }
    return Record(fields);
  }

  // ---- what each decoder makes of the pieces ----

  predicate HasEquals(field: Bytes) { IndexOf(field, EQUALS) < |field| }

  /** The first piece that is not empty and has no `=`; past the end if there is none. */
  function FirstBare(pieces: seq<Bytes>): (n: nat)
    ensures n <= |pieces|
    ensures forall i :: 0 <= i < n ==> pieces[i] == [] || HasEquals(pieces[i])
    ensures n < |pieces| ==> pieces[n] != [] && !HasEquals(pieces[n])
    decreases |pieces|
  {
    if pieces == [] || (pieces[0] != [] && !HasEquals(pieces[0])) then 0 else 1 + FirstBare(pieces[1..])
  }

  /** The assignment a piece makes, if any. */
  type Reading = Bytes -> Option<(string, string)>

  function ReadTs(codec: TextCodec): Reading {
    (field: Bytes) =>
      if !HasEquals(field) then None
      else
        var eq := IndexOf(field, EQUALS);
        var name := codec.decTs(field[..eq]);
        if name == "__proto__" then None else Some((name, codec.decTs(field[eq + 1..])))
  }

  function ReadPy(codec: TextCodec): Reading {
    (field: Bytes) =>
      if !HasEquals(field) then None
      else
        var eq := IndexOf(field, EQUALS);
        match (codec.decPy(field[..eq]), codec.decPy(field[eq + 1..]))
        case (Some(name), Some(value)) => Some((name, value))
        case _ => None
  }

  function Assign(read: Reading, fields: map<string, string>, field: Bytes): map<string, string> {
    if read(field).Some? then fields[read(field).value.0 := read(field).value.1] else fields
  }

  function Assigned(read: Reading, fields: map<string, string>, pieces: seq<Bytes>): map<string, string>
    decreases |pieces|
  {
    if pieces == [] then fields
    else Assigned(read, Assign(read, fields, pieces[0]), pieces[1..])
  }

  /** The value of the last piece that reads as an assignment to the name. */
  function LastValue(read: Reading, pieces: seq<Bytes>, name: string): Option<string>
    decreases |pieces|
  {
    if pieces == [] then None
    else
      var later := LastValue(read, pieces[1..], name);
      if later.Some? then later
      else if read(pieces[0]).Some? && read(pieces[0]).value.0 == name then Some(read(pieces[0]).value.1)
      else None
  }

  lemma {:induction false} AssignedLast(read: Reading, fields: map<string, string>, pieces: seq<Bytes>, name: string)
    ensures var m, last := Assigned(read, fields, pieces), LastValue(read, pieces, name);
            && (name in m <==> last.Some? || name in fields)
            && (name in m ==> m[name] == if last.Some? then last.value else fields[name])
    decreases |pieces|
  {
    if pieces != [] {
      AssignedLast(read, Assign(read, fields, pieces[0]), pieces[1..], name);
    }
  }

  ghost predicate SameLast(read: Reading, read': Reading, pieces: seq<Bytes>) {
    forall name: string :: LastValue(read, pieces, name) == LastValue(read', pieces, name)
  }

  /** Two readings of the pieces give one record exactly if they agree on the last assignment to every name. */
  lemma SameAssigned(read: Reading, read': Reading, pieces: seq<Bytes>)
    ensures Assigned(read, map[], pieces) == Assigned(read', map[], pieces) <==>
            SameLast(read, read', pieces)
  {
    var m, m' := Assigned(read, map[], pieces), Assigned(read', map[], pieces);
    forall name ensures LastValue(read, pieces, name) == (if name in m then Some(m[name]) else None)
                ensures LastValue(read', pieces, name) == (if name in m' then Some(m'[name]) else None)
    {
      AssignedLast(read, map[], pieces, name);
      AssignedLast(read', map[], pieces, name);
    }
    if SameLast(read, read', pieces) {
      forall name ensures name in m <==> name in m'
                  ensures name in m ==> m[name] == m'[name]
      {
        assert LastValue(read, pieces, name) == LastValue(read', pieces, name);
      }
      assert m == m';
    } else {
      var name :| LastValue(read, pieces, name) != LastValue(read', pieces, name);
      assert m != m';
    }
  }

  lemma StepAssigns(codec: TextCodec, fields: map<string, string>, field: Bytes)
    requires field == [] || HasEquals(field)
    ensures StepTs(codec, fields, field) == Record(Assign(ReadTs(codec), fields, field))
  {
    if field == [] {
      assert !HasEquals(field);
    } else {
      var eq := IndexOf(field, EQUALS);
      assert ReadTs(codec)(field) ==
             if codec.decTs(field[..eq]) == "__proto__" then None
             else Some((codec.decTs(field[..eq]), codec.decTs(field[eq + 1..])));
    }
  }

  /** The scanning decoder fails exactly at a piece without `=`. */
  lemma {:induction false} TsReads(codec: TextCodec, fields: map<string, string>, pieces: seq<Bytes>)
    ensures Run(TsStep(codec), fields, pieces) ==
            if FirstBare(pieces) < |pieces| then MissingEquals else Record(Assigned(ReadTs(codec), fields, pieces))
    decreases |pieces|
  {
    if pieces != [] {
      var step := StepTs(codec, fields, pieces[0]);
      if step.Record? {
        StepAssigns(codec, fields, pieces[0]);
        TsReads(codec, step.fields, pieces[1..]);
      }
    }
  }

  /** A field whose name and value are text to the splitting decoder. */
  predicate IsText(codec: TextCodec, field: Bytes) { field == [] || ReadPy(codec)(field).Some? }

  /** The splitting decoder fails at a piece without `=` or one that is not text, whichever comes first. */
  lemma {:induction false} PyReads(codec: TextCodec, fields: map<string, string>, pieces: seq<Bytes>)
    ensures Run(PyStep(codec), fields, pieces) ==
            if exists i :: 0 <= i < FirstBare(pieces) && !IsText(codec, pieces[i]) then BadText
            else if FirstBare(pieces) < |pieces| then MissingEquals
            else Record(Assigned(ReadPy(codec), fields, pieces))
    decreases |pieces|
  {
    if pieces != [] {
      var step, rest := StepPy(codec, fields, pieces[0]), pieces[1..];
      if step.Record? {
        assert step.fields ==
               Assign(ReadPy(codec), fields, pieces[0]) by { assert pieces[0] == [] ==> !HasEquals(pieces[0]); }
        PyReads(codec, step.fields, rest);
        assert IsText(codec, pieces[0]) && FirstBare(pieces) == FirstBare(rest) + 1;
        if i :| 0 <= i < FirstBare(rest) && !IsText(codec, rest[i]) {
          assert !IsText(codec, pieces[i + 1]);
        } else {
          assert forall i :: 0 < i < FirstBare(pieces) ==> pieces[i] == rest[i - 1];
        }
      } else if HasEquals(pieces[0]) {
        assert 0 < FirstBare(pieces) && !IsText(codec, pieces[0]);
      }
    }
  }

  /**
   On every byte string, errors included, the decoders agree exactly if no piece
   before the first one without `=` is malformed text and, where there is no such
   piece, the last assignments to every name are the same.
   */
  lemma DecodersAgree(codec: TextCodec, bytes: Bytes)
    ensures var pieces := Split(bytes);
            Run(TsStep(codec), map[], pieces) == Run(PyStep(codec), map[], pieces) <==>
            && (forall i :: 0 <= i < FirstBare(pieces) ==> IsText(codec, pieces[i]))
            && (FirstBare(pieces) < |pieces| ||
                SameLast(ReadTs(codec), ReadPy(codec), pieces))
  {
    var pieces := Split(bytes);
    TsReads(codec, map[], pieces);
    PyReads(codec, map[], pieces);
    SameAssigned(ReadTs(codec), ReadPy(codec), pieces);
  }

  // ---- round trip ----

  /** Separators in the bytes are separators in the text, and only the empty text is empty. */
  ghost predicate Transparent(codec: TextCodec, s: string) {
    && (SOH in codec.enc(s) <==> '\U{0001}' in s)
    && (EQUALS in codec.enc(s) <==> '=' in s)
    && (codec.enc(s) == [] <==> s == "")
  }

  ghost predicate FieldTransparent(codec: TextCodec, f: Field) {
    Transparent(codec, f.name) && Transparent(codec, ValueText(f.value)) && '\U{0001}' !in ValueText(f.value)
  }

  const MARK: char := '\U{FEFF}'

  predicate Marked(s: string) { s != "" && s[0] == MARK }

  /** `TextDecoder` takes a leading byte order mark for a signature and drops it. */
  function Unmarked(s: string): string { if Marked(s) then s[1..] else s }

  ghost predicate ReadsBackTs(codec: TextCodec, f: Field) {
    && codec.decTs(codec.enc(f.name)) == Unmarked(f.name)
    && codec.decTs(codec.enc(ValueText(f.value))) == Unmarked(ValueText(f.value))
  }

  ghost predicate ReadsBackPy(codec: TextCodec, f: Field) {
    && codec.decPy(codec.enc(f.name)) == Some(f.name)
    && codec.decPy(codec.enc(ValueText(f.value))) == Some(ValueText(f.value))
  }

  /** The record as a map from name to text; later fields would overwrite earlier ones. */
  function AsMap(record: seq<Field>): map<string, string> {
    if record == [] then map[]
    else AsMap(record[..|record| - 1])[record[|record| - 1].name := ValueText(record[|record| - 1].value)]
  }

  function FieldBytes(codec: TextCodec, f: Field): Bytes {
    codec.enc(f.name) + [EQUALS] + codec.enc(ValueText(f.value))
  }

  lemma FieldParts(codec: TextCodec, f: Field)
    requires LegalName(f.name) && FieldTransparent(codec, f)
    ensures var b := FieldBytes(codec, f);
            && b != [] && SOH !in b
            && IndexOf(b, EQUALS) == |codec.enc(f.name)|
            && b[..|codec.enc(f.name)|] == codec.enc(f.name)
            && b[|codec.enc(f.name)| + 1..] == codec.enc(ValueText(f.value))
  {
    var n := codec.enc(f.name);
    var b := FieldBytes(codec, f);
    forall j | 0 <= j < |n| ensures b[j] != EQUALS { assert b[j] == n[j] && n[j] in n; }
    IndexOfUnique(b, EQUALS, |n|);
  }

  lemma SplitOne(field: Bytes)
    requires SOH !in field
    ensures Split(field + [SOH]) == [field, []]
  {
    var b := field + [SOH];
    forall j | 0 <= j < |field| ensures b[j] != SOH { assert b[j] == field[j] && field[j] in field; }
    IndexOfUnique(b, SOH, |field|);
    assert b[..|field|] == field && b[|field| + 1..] == [];
    assert Split([]) == [[]];
  }

  /** Splitting after complete fields continues with the bytes that follow. */
  lemma {:induction false} SplitAppend(a: Bytes, tail: Bytes)
    requires Split(a)[|Split(a)| - 1] == []
    ensures Split(a + tail) == Split(a)[..|Split(a)| - 1] + Split(tail)
    decreases |a|
  {
    var i := IndexOf(a, SOH);
    if i == |a| {
      assert Split(a)[..0] == [];
      assert a + tail == tail;
    } else {
      var rest := Split(a[i + 1..]);
      SplitShape(a, i, rest);
      SplitStep(a, tail, i);
      SplitAppend(a[i + 1..], tail);
      Regroup(a[..i], rest[..|rest| - 1], Split(tail));
    }
  }

  lemma SplitShape(a: Bytes, i: nat, rest: seq<Bytes>)
    requires i == IndexOf(a, SOH) < |a| && rest == Split(a[i + 1..])
    ensures Split(a)[|Split(a)| - 1] == rest[|rest| - 1]
    ensures Split(a)[..|Split(a)| - 1] == [a[..i]] + rest[..|rest| - 1]
  {
    SplitAtFirst(a, i);
    FrontOfCons(a[..i], rest);
  }

  lemma FrontOfCons(x: Bytes, rest: seq<Bytes>)
    requires rest != []
    ensures var all := [x] + rest; all[|all| - 1] == rest[|rest| - 1] && all[..|all| - 1] == [x] + rest[..|rest| - 1]
  {
  }

  lemma Regroup(x: Bytes, a: seq<Bytes>, b: seq<Bytes>)
    ensures [x] + (a + b) == [x] + a + b
  {
  }

  lemma SplitStep(a: Bytes, tail: Bytes, i: nat)
    requires i == IndexOf(a, SOH) < |a|
    ensures Split(a + tail) == [a[..i]] + Split(a[i + 1..] + tail)
  {
    var b := a + tail;
    IndexOfUnique(b, SOH, i);
    SplitAtFirst(b, i);
    assert b[..i] == a[..i];
    assert b[i + 1..] == a[i + 1..] + tail;
  }

  lemma SplitAtFirst(b: Bytes, i: nat)
    requires i == IndexOf(b, SOH) < |b|
    ensures Split(b) == [b[..i]] + Split(b[i + 1..])
  {
  }

  ghost predicate Encodable(codec: TextCodec, f: Field) {
    LegalName(f.name) && !f.value.Nested? && FieldTransparent(codec, f)
  }

  function Pieces(codec: TextCodec, record: seq<Field>): seq<Bytes> {
    if record == [] then [] else Pieces(codec, record[..|record| - 1]) + [FieldBytes(codec, record[|record| - 1])]
  }

  lemma {:induction false} EncodedSplits(codec: TextCodec, record: seq<Field>)
    requires forall i :: 0 <= i < |record| ==> Encodable(codec, record[i])
    ensures EncodeAll(codec, record).Ok?
    ensures Split(EncodeAll(codec, record).bytes) == Pieces(codec, record) + [[]]
  {
    if record == [] {
      assert Split([]) == [[]];
    } else {
      var front, f := record[..|record| - 1], record[|record| - 1];
      EncodedSplits(codec, front);
      var a := EncodeAll(codec, front).bytes;
      FieldParts(codec, f);
      SplitAppend(a, FieldBytes(codec, f) + [SOH]);
      SplitOne(FieldBytes(codec, f));
      assert (Pieces(codec, front) + [[]])[..|Pieces(codec, front)|] == Pieces(codec, front);
    }
  }

  lemma {:induction false} RunSnoc(step: Step, fields: map<string, string>, pieces: seq<Bytes>, last: Bytes)
    ensures Run(step, fields, pieces + [last]) ==
            match Run(step, fields, pieces) case Record(fields') => step(fields', last) case error => error
    decreases |pieces|
  {
    if pieces == [] {
      assert ([last])[1..] == [];
    } else {
      assert (pieces + [last])[1..] == pieces[1..] + [last];
      var next := step(fields, pieces[0]);
      if next.Record? { RunSnoc(step, next.fields, pieces[1..], last); }
    }
  }

  /** What the scanning decoder makes of a record. */
  function AsObject(record: seq<Field>): map<string, string> {
    if record == [] then map[]
    else
      var f := record[|record| - 1];
      AssignTs(AsObject(record[..|record| - 1]), Unmarked(f.name), Unmarked(ValueText(f.value)))
  }

  lemma {:induction false} PiecesDecodeTs(codec: TextCodec, record: seq<Field>)
    requires forall i :: 0 <= i < |record| ==> Encodable(codec, record[i]) && ReadsBackTs(codec, record[i])
    ensures Run(TsStep(codec), map[], Pieces(codec, record)) == Record(AsObject(record))
  {
    if record != [] {
      var front, f := record[..|record| - 1], record[|record| - 1];
      PiecesDecodeTs(codec, front);
      RunSnoc(TsStep(codec), map[], Pieces(codec, front), FieldBytes(codec, f));
      FieldParts(codec, f);
    }
  }

  lemma {:induction false} PiecesDecodePy(codec: TextCodec, record: seq<Field>)
    requires forall i :: 0 <= i < |record| ==> Encodable(codec, record[i]) && ReadsBackPy(codec, record[i])
    ensures Run(PyStep(codec), map[], Pieces(codec, record)) == Record(AsMap(record))
  {
    if record != [] {
      var front, f := record[..|record| - 1], record[|record| - 1];
      PiecesDecodePy(codec, front);
      RunSnoc(PyStep(codec), map[], Pieces(codec, front), FieldBytes(codec, f));
      FieldParts(codec, f);
    }
  }

  // ---- when an object holds the record ----

  lemma {:induction false} ObjectNames(record: seq<Field>, k: string)
    ensures k in AsObject(record) ==> k != "__proto__" && exists n :: n in AsMap(record) && Unmarked(n) == k
  {
    if record != [] {
      var front, f := record[..|record| - 1], record[|record| - 1];
      ObjectNames(front, k);
      if k in AsObject(front) {
        var n :| n in AsMap(front) && Unmarked(n) == k;
        assert n in AsMap(record);
      } else if k in AsObject(record) {
        assert f.name in AsMap(record) && Unmarked(f.name) == k;
      }
    }
  }

  /** A longest name that starts with a mark is not found again. */
  lemma MarkedNameIsLost(record: seq<Field>, k: string)
    requires k in AsMap(record) && Marked(k)
    requires forall n :: n in AsMap(record) && Marked(n) ==> |n| <= |k|
    ensures k !in AsObject(record)
  {
    ObjectNames(record, k);
  }

  lemma LongestMarked(names: set<string>) returns (k: string)
    requires exists n :: n in names && Marked(n)
    ensures k in names && Marked(k) && forall n :: n in names && Marked(n) ==> |n| <= |k|
    decreases names
  {
    k :| k in names && Marked(k);
    if n :| n in names && Marked(n) && |n| > |k| {
      k := LongestMarked(names - {k});
    }
  }

  /** Without marked names, an object holds each value less its mark. */
  lemma {:induction false} ObjectValues(record: seq<Field>)
    requires forall n :: n in AsMap(record) ==> !Marked(n)
    ensures AsObject(record).Keys == AsMap(record).Keys - {"__proto__"}
    ensures forall n :: n in AsObject(record) ==> AsObject(record)[n] == Unmarked(AsMap(record)[n])
  {
    if record != [] {
      var front, f := record[..|record| - 1], record[|record| - 1];
      assert f.name in AsMap(record);
      forall n | n in AsMap(front) ensures !Marked(n) { assert n in AsMap(record); }
      ObjectValues(front);
    }
  }

  /** No name is `__proto__`, and no name or value starts with a byte order mark. */
  ghost predicate ObjectSafe(m: map<string, string>) {
    "__proto__" !in m && forall n :: n in m ==> !Marked(n) && !Marked(m[n])
  }

  lemma ObjectExact(record: seq<Field>)
    ensures AsObject(record) == AsMap(record) <==> ObjectSafe(AsMap(record))
  {
    var o, m := AsObject(record), AsMap(record);
    if exists n :: n in m && Marked(n) {
      var k := LongestMarked(m.Keys);
      MarkedNameIsLost(record, k);
    } else {
      ObjectValues(record);
      if o == m {
        forall n | n in m ensures !Marked(m[n]) { assert o[n] == Unmarked(m[n]); }
      }
    }
  }

  /**
   Decoding undoes encoding for every legal record, values containing `=` included;
   for the scanning decoder exactly if the record is safe in an object.
   */
  lemma RoundTrip(codec: TextCodec, record: seq<Field>)
    requires forall i :: 0 <= i < |record| ==>
               Encodable(codec, record[i]) && ReadsBackPy(codec, record[i]) && ReadsBackTs(codec, record[i])
    ensures EncodeAll(codec, record).Ok?
    ensures var pieces := Split(EncodeAll(codec, record).bytes);
            && Run(PyStep(codec), map[], pieces) == Record(AsMap(record))
            && Run(TsStep(codec), map[], pieces) == Record(AsObject(record))
            && (Run(TsStep(codec), map[], pieces) == Record(AsMap(record)) <==> ObjectSafe(AsMap(record)))
  {
    EncodedSplits(codec, record);
    PiecesDecodeTs(codec, record);
    PiecesDecodePy(codec, record);
    RunSnoc(TsStep(codec), map[], Pieces(codec, record), []);
    RunSnoc(PyStep(codec), map[], Pieces(codec, record), []);
    ObjectExact(record);
  }

  /** A field named `__proto__` is dropped. */
  lemma ProtoIsLost()
    ensures AsMap([Field("__proto__", Text("x"))]) == map["__proto__" := "x"]
            && AsObject([Field("__proto__", Text("x"))]) == map[]
  {
    var record := [Field("__proto__", Text("x"))];
    assert record[..0] == [];
  }

  /** A mark at the start of a value is dropped. */
  lemma MarkIsLost()
    ensures AsMap([Field("a", Text([MARK, 'x']))]) == map["a" := [MARK, 'x']]
    ensures AsObject([Field("a", Text([MARK, 'x']))]) == map["a" := "x"]
  {
    var record := [Field("a", Text([MARK, 'x']))];
    assert record[..0] == [];
    assert [MARK, 'x'][1..] == "x";
  }
}
