/** Schemas, rows and their stored form: a NULL bitmap followed by the fields in column order. */
module Codec {
  import opened Common
  import opened Bytes

  datatype Kind = IntType | StringType | BoolType | FloatType | BytesType | TimestampType | Unknown

  datatype Column = Column(name: Name, kind: Kind)

  datatype Schema = Schema(columns: seq<Column>, notNull: set<Name>, unique: set<Name>)

  type i64 = n: int | -0x8000_0000_0000_0000 <= n < 0x8000_0000_0000_0000

  /** The time zone in which stored instants are read back. */
  const UTC: nat := 0

  /**
   * A dynamically typed column value.  Floats are 64-bit patterns, instants any
   * number of nanoseconds since 1970 with a time zone.  A nil byte slice is not
   * an empty one.
   */
  datatype Value =
    | Null
    | Int(n: i64)
    | Str(s: bytes)
    | Bool(b: bool)
    | Float(bits: u64)
    | Blob(data: bytes)
    | NilBlob
    | Time(nanos: int, zone: nat)
    | Other(tag: int)

  type Row = map<Name, Value>

  /** How a value prints. */
  type Printer = Value -> bytes

  /** How an int is converted to a float pattern. */
  type Conversion = int -> u64

  /** The pattern is one of the many that print as NaN. */
  predicate IsNaN(bits: u64)
  {
    bits / 0x10_0000_0000_0000 % 0x800 == 0x7FF && bits % 0x10_0000_0000_0000 != 0
  }

  const NAN: u64 := 0x7FF8_0000_0000_0001

  /** Values with the same type and Go syntax: each only with itself, but NaNs with each other. */
  function IndexKey(v: Value): Value
  {
    if v.Float? && IsNaN(v.bits) then Float(NAN) else v
  }

  // ---------------------------------------------------------------- schema

  ghost predicate Distinct(cs: seq<Column>)
  {
    forall i, j :: 0 <= i < j < |cs| ==> cs[i].name != cs[j].name
  }

  ghost function Names(cs: seq<Column>): set<Name>
  {
    if cs == [] then {} else Names(cs[..|cs| - 1]) + {cs[|cs| - 1].name}
  }

  lemma {:induction false} NamesAt(cs: seq<Column>, name: Name)
    ensures name in Names(cs) <==> exists i :: 0 <= i < |cs| && cs[i].name == name
  {
    if cs != [] {
      var n := |cs| - 1;
      NamesAt(cs[..n], name);
      if i :| 0 <= i < |cs| && cs[i].name == name {
        assert i < n ==> cs[..n][i].name == name;
      }
      if name in Names(cs[..n]) {
        var i :| 0 <= i < n && cs[..n][i].name == name;
        assert cs[i].name == name;
      }
    }
  }

  /** A new column has a new name. */
  lemma {:induction false} NamesNext(cs: seq<Column>, i: nat)
    requires Distinct(cs) && i < |cs|
    ensures cs[i].name !in Names(cs[..i]) && Names(cs[..i + 1]) == Names(cs[..i]) + {cs[i].name}
  {
    assert cs[..i + 1][..i] == cs[..i];
    NamesAt(cs[..i], cs[i].name);
  }

  lemma {:induction false} NamesCount(cs: seq<Column>, i: nat)
    requires Distinct(cs) && i <= |cs|
    ensures |Names(cs[..i])| == i
  {
    hide Distinct;
    if i > 0 {
      NamesCount(cs, i - 1);
      NamesNext(cs, i - 1);
    }
  }

  ghost predicate ValidSchema(cs: seq<Column>)
  {
    Distinct(cs) && forall i :: 0 <= i < |cs| ==> cs[i].name.text != "" && cs[i].kind != Unknown
  }

  method Validate(cs: seq<Column>) returns (ok: bool)
    ensures ok <==> ValidSchema(cs)
  {
    var seen: set<Name> := {};
    for i := 0 to |cs|
      invariant ValidSchema(cs[..i])
      invariant forall name :: name in seen <==> exists j :: 0 <= j < i && cs[j].name == name
    {
      var c := cs[i];
      if c.name.text == "" || c.name in seen { return false; }
      if c.kind == Unknown { return false; }
      seen := seen + {c.name};
      assert forall j :: 0 <= j < i ==> cs[j].name in seen;
      assert cs[..i + 1][i] == c;
    }
    assert cs[..|cs|] == cs;
    ok := true;
  }

  /** The first column with that name, or 0. */
  method IndexOf(cs: seq<Column>, want: Column) returns (k: nat)
    ensures if exists i :: 0 <= i < |cs| && cs[i].name == want.name
            then k < |cs| && cs[k].name == want.name && forall j :: 0 <= j < k ==> cs[j].name != want.name
            else k == 0
    ensures forall i :: 0 <= i < |cs| && cs[i].name == want.name && Distinct(cs) ==> k == i
  {
    for i := 0 to |cs|
      invariant forall j :: 0 <= j < i ==> cs[j].name != want.name
    {
      if cs[i].name == want.name { return i; }
    }
    k := 0;
  }

  // ------------------------------------------------------------------ bits

  function Pow2(j: nat): (r: nat)
    ensures r >= 1
  {
    if j == 0 then 1 else 2 * Pow2(j - 1)
  }

  /** `x & (1 << j) != 0` */
  predicate Bit(x: nat, j: nat)
  {
    if j == 0 then x % 2 == 1 else Bit(x / 2, j - 1)
  }

  /** `x | 1 << j` */
  function OrBit(x: nat, j: nat): nat
  {
    if j == 0 then x - x % 2 + 1 else x % 2 + 2 * OrBit(x / 2, j - 1)
  }

  lemma {:induction false} OrBitSets(x: nat, j: nat, k: nat)
    ensures Bit(OrBit(x, j), k) <==> Bit(x, k) || k == j
  {
    if j > 0 && k > 0 { OrBitSets(x / 2, j - 1, k - 1); }
    if j == 0 && k > 0 { assert OrBit(x, j) / 2 == x / 2; }
  }

  lemma {:induction false} OrBitBound(x: nat, j: nat, width: nat)
    requires j < width && x < Pow2(width)
    ensures OrBit(x, j) < Pow2(width)
  {
    if j > 0 { OrBitBound(x / 2, j - 1, width - 1); }
    else { Pow2Even(width); }
  }

  lemma Pow2Even(width: nat)
    requires width > 0
    ensures Pow2(width) % 2 == 0
  {
  }

  /** A byte is its eight bits. */
  lemma {:induction false} SameBits(x: nat, y: nat, width: nat)
    requires x < Pow2(width) && y < Pow2(width)
    requires forall k: nat :: k < width ==> (Bit(x, k) <==> Bit(y, k))
    ensures x == y
  {
    if width > 0 {
      assert Bit(x, 0) <==> Bit(y, 0);
      forall k: nat | k < width - 1 ensures Bit(x / 2, k) <==> Bit(y / 2, k) {
        assert Bit(x, k + 1) <==> Bit(y, k + 1);
      }
      SameBits(x / 2, y / 2, width - 1);
    }
  }

  lemma {:induction false} ZeroHasNoBits(k: nat)
    ensures !Bit(0, k)
  {
    if k > 0 { ZeroHasNoBits(k - 1); }
  }

  lemma ByteRange()
    ensures Pow2(8) == 256
  {
    assert Pow2(4) == 16;
  }

  // ---------------------------------------------------------------- bitmap

  function BitmapSize(n: nat): nat
  {
    (n + 7) / 8
  }

  predicate Marked(bitmap: bytes, i: nat)
    requires i / 8 < |bitmap|
  {
    Bit(bitmap[i / 8], i % 8)
  }

  /** Column `i` is marked exactly when `nulls[i]`, and no bit past the columns is set. */
  ghost predicate Marks(bitmap: bytes, nulls: seq<bool>, n: nat)
    requires |nulls| <= n
  {
    && |bitmap| == BitmapSize(n)
    && forall i: nat :: i < 8 * |bitmap| ==> (Marked(bitmap, i) <==> i < |nulls| && nulls[i])
  }

  method SetNull(bitmap: bytes, i: nat) returns (r: bytes)
    requires i / 8 < |bitmap|
    ensures |r| == |bitmap|
    ensures forall k: nat :: k < 8 * |bitmap| ==> (Marked(r, k) <==> Marked(bitmap, k) || k == i)
    ensures forall j :: 0 <= j < |bitmap| && j != i / 8 ==> r[j] == bitmap[j]
  {
    ByteRange();
    OrBitBound(bitmap[i / 8], i % 8, 8);
    r := bitmap[i / 8 := OrBit(bitmap[i / 8], i % 8)];
    forall k: nat | k < 8 * |bitmap| ensures Marked(r, k) <==> Marked(bitmap, k) || k == i {
      if k / 8 == i / 8 { OrBitSets(bitmap[i / 8], i % 8, k % 8); }
    }
  }

  /** A bitmap is determined by what it marks. */
  lemma {:induction false} SameMarks(a: bytes, b: bytes)
    requires |a| == |b| && forall i: nat :: i < 8 * |a| ==> (Marked(a, i) <==> Marked(b, i))
    ensures a == b
  {
    ByteRange();
    forall j | 0 <= j < |a| ensures a[j] == b[j] {
      forall k: nat | k < 8 ensures Bit(a[j], k) <==> Bit(b[j], k) {
        assert Marked(a, 8 * j + k) <==> Marked(b, 8 * j + k);
      }
      SameBits(a[j], b[j], 8);
    }
  }

  // ---------------------------------------------------------------- fields

  /** The low 64 bits of a signed integer. */
  /** The low 64 bits of an integer. */
  function Unsigned(n: int): u64
  {
    n % 0x1_0000_0000_0000_0000
  }

  function Signed(n: u64): i64
  {
    if n < 0x8000_0000_0000_0000 then n else n - 0x1_0000_0000_0000_0000
  }

  predicate IsI64(n: int)
  {
    -0x8000_0000_0000_0000 <= n < 0x8000_0000_0000_0000
  }

  /** The value is one the column stores. */
  predicate Fits(kind: Kind, v: Value)
  {
    match kind
    case IntType => v.Int?
    case StringType => v.Str?
    case BoolType => v.Bool?
    case FloatType => v.Float? || v.Int?
    case BytesType => v.Blob? || v.NilBlob?
    case TimestampType => v.Time?
    case Unknown => false
  }

  /** A byte string behind its length, which is cut to 32 bits. */
  function Prefixed(s: bytes): bytes
  {
    Le32(|s| % 0x1_0000_0000) + s
  }

  function FieldBytes(conv: Conversion, kind: Kind, v: Value): bytes
    requires v != Null ==> Fits(kind, v)
  {
    match v
    case Null => []
    case Int(n) => if kind == FloatType then Le64(conv(n)) else Le64(Unsigned(n))
    case Str(s) => Prefixed(s)
    case Bool(b) => [if b then 1 else 0]
    case Float(bits) => Le64(bits)
    case Blob(data) => Prefixed(data)
    case NilBlob => Prefixed([])
    case Time(nanos, _) => Le64(Unsigned(nanos))
    case Other(_) => []
  }

  /**
   * What a stored value reads back as: an int in a float column as a float, an
   * empty byte slice as a nil one, an instant in UTC and with its nanoseconds
   * cut to 64 bits.
   */
  function Canon(conv: Conversion, kind: Kind, v: Value): Value
  {
    if kind == FloatType && v.Int? then Float(conv(v.n))
    else if kind == BytesType && v == Blob([]) then NilBlob
    else if kind == TimestampType && v.Time? then Time(Signed(Unsigned(v.nanos)), UTC)
    else v
  }

  /** The value is not one of those that read back differently. */
  predicate Settled(kind: Kind, v: Value)
  {
    && !(kind == FloatType && v.Int?)
    && !(kind == BytesType && v == Blob([]))
    && !(kind == TimestampType && v.Time? && ((v.zone != UTC || !IsI64(v.nanos))))
  }

  /** A value reads back as itself exactly when it is settled, and what reads back is settled. */
  lemma CanonSettled(conv: Conversion, kind: Kind, v: Value)
    ensures Canon(conv, kind, v) == v <==> Settled(kind, v)
    ensures Settled(kind, Canon(conv, kind, v)) && (Canon(conv, kind, v) == Null <==> v == Null)
  {
  }

  /** The first second of 1600 is stored as one of 2184. */
  lemma {:induction false} OldInstantMoves(conv: Conversion)
    ensures Canon(conv, TimestampType, Time(-11676096000_000000000, UTC)) == Time(6770648073_709551616, UTC)
  {
    assert Unsigned(-11676096000_000000000) == 6770648073_709551616;
  }

  predicate Short(v: Value)
  {
    (v.Str? ==> |v.s| < 0x1_0000_0000) && (v.Blob? ==> |v.data| < 0x1_0000_0000)
  }

  /** The value of a non-NULL column at `p` and the offset after it. */
  function ReadField(kind: Kind, data: bytes, p: nat): (r: Option<(Value, nat)>)
    requires p <= |data|
    ensures r.Some? ==> p <= r.value.1 <= |data| && Fits(kind, r.value.0) && Short(r.value.0)
    ensures r.Some? ==> Settled(kind, r.value.0)
  {
    match kind
    case IntType => if p + 8 > |data| then None else Some((Int(Signed(Get64(data[p..p + 8]))), p + 8))
    case StringType =>
      if p + 4 > |data| then None
      else
        var n := Get32(data[p..p + 4]);
        if p + 4 + n > |data| then None else Some((Str(data[p + 4..p + 4 + n]), p + 4 + n))
    case BoolType => if p >= |data| || data[p] > 1 then None else Some((Bool(data[p] == 1), p + 1))
    case FloatType => if p + 8 > |data| then None else Some((Float(Get64(data[p..p + 8])), p + 8))
    case BytesType =>
      if p + 4 > |data| then None
      else
        var n := Get32(data[p..p + 4]);
        if p + 4 + n > |data| then None
        else Some((if n == 0 then NilBlob else Blob(data[p + 4..p + 4 + n]), p + 4 + n))
    case TimestampType => if p + 8 > |data| then None else Some((Time(Signed(Get64(data[p..p + 8])), UTC), p + 8))
    case Unknown => None
  }

  // ------------------------------------------------------------------ rows

  predicate Storable(cs: seq<Column>, row: Row)
  {
    forall i :: 0 <= i < |cs| ==>
      && cs[i].name in row
      && (row[cs[i].name] != Null ==> Fits(cs[i].kind, row[cs[i].name]))
  }

  predicate NullsAllowed(schema: Schema, row: Row)
  {
    forall i :: 0 <= i < |schema.columns| && schema.columns[i].name in row && row[schema.columns[i].name] == Null ==>
      schema.columns[i].name !in schema.notNull
  }

  /** Exactly the rows that are accepted. */
  predicate WellTyped(schema: Schema, row: Row)
  {
    |row| == |schema.columns| && Storable(schema.columns, row) && NullsAllowed(schema, row)
  }

  function NullsOf(cs: seq<Column>, row: Row): (r: seq<bool>)
    requires Storable(cs, row)
    ensures |r| == |cs| && forall i :: 0 <= i < |cs| ==> r[i] == (row[cs[i].name] == Null)
  {
    seq(|cs|, i requires 0 <= i < |cs| => row[cs[i].name] == Null)
  }

  /** The fields of the non-NULL columns, one after the other. */
  function Fields(conv: Conversion, cs: seq<Column>, row: Row): bytes
    requires Storable(cs, row)
  {
    if cs == [] then []
    else
      var n := |cs| - 1;
      Fields(conv, cs[..n], row) + FieldBytes(conv, cs[n].kind, row[cs[n].name])
  }

  ghost predicate IsEncoding(conv: Conversion, schema: Schema, row: Row, data: bytes)
  {
    var n := BitmapSize(|schema.columns|);
    && WellTyped(schema, row)
    && |data| >= n
    && Marks(data[..n], NullsOf(schema.columns, row), |schema.columns|)
    && data[n..] == Fields(conv, schema.columns, row)
  }

  lemma {:induction false} EncodingUnique(conv: Conversion, schema: Schema, row: Row, a: bytes, b: bytes)
    requires IsEncoding(conv, schema, row, a) && IsEncoding(conv, schema, row, b)
    ensures a == b
  {
    var n := BitmapSize(|schema.columns|);
    SameMarks(a[..n], b[..n]);
    assert a == a[..n] + a[n..] && b == b[..n] + b[n..];
  }

  /** The loop state of decoding after `i` columns: the row so far and the offset. */
  function Parsed(cs: seq<Column>, data: bytes, i: nat): (r: Option<(Row, nat)>)
    requires BitmapSize(|cs|) <= |data| && i <= |cs|
    ensures r.Some? ==> r.value.1 <= |data|
  {
    if i == 0 then Some((map[], BitmapSize(|cs|)))
    else
      var before := Parsed(cs, data, i - 1);
      var c := cs[i - 1];
      if before.None? then None
      else if Marked(data, i - 1) then Some((before.value.0[c.name := Null], before.value.1))
      else
        var field := ReadField(c.kind, data, before.value.1);
        if field.None? then None else Some((before.value.0[c.name := field.value.0], field.value.1))
  }

  /** The row stored in `data`; every byte must be used. */
  function Decoded(cs: seq<Column>, data: bytes): Option<Row>
  {
    if |data| < BitmapSize(|cs|) then None
    else
      var all := Parsed(cs, data, |cs|);
      if all.Some? && all.value.1 == |data| then Some(all.value.0) else None
  }

  lemma {:induction false} FieldsStep(conv: Conversion, cs: seq<Column>, row: Row, i: nat)
    requires Storable(cs, row) && i < |cs|
    ensures Storable(cs[..i], row) && Storable(cs[..i + 1], row)
    ensures Fields(conv, cs[..i + 1], row) == Fields(conv, cs[..i], row) + FieldBytes(conv, cs[i].kind, row[cs[i].name])
  {
    assert cs[..i + 1][..i] == cs[..i];
  }

  /** The fields of the first columns begin the fields of all. */
  lemma {:induction false} FieldsPrefix(conv: Conversion, cs: seq<Column>, row: Row, i: nat)
    requires Storable(cs, row) && i <= |cs|
    ensures Storable(cs[..i], row) && Fields(conv, cs[..i], row) <= Fields(conv, cs, row)
    decreases |cs| - i
  {
    hide FieldBytes;
    if i == |cs| {
      assert cs[..i] == cs;
    } else {
      FieldsPrefix(conv, cs, row, i + 1);
      FieldsStep(conv, cs, row, i);
    }
  }

  // ------------------------------------------------------------ round trips

  lemma {:induction false} PrefixedRoundTrip(a: bytes, s: bytes, b: bytes)
    requires |s| < 0x1_0000_0000
    ensures var d := a + Prefixed(s) + b;
            var p := |a|;
            Get32(d[p..p + 4]) == |s| && d[p + 4..p + 4 + |s|] == s
  {
    var d := a + Prefixed(s) + b;
    assert d[|a|..|a| + 4] == Le32(|s|);
    RoundTrip32(|s|);
  }

  lemma {:induction false} WordRoundTrip(a: bytes, n: u64, b: bytes)
    ensures var d := a + Le64(n) + b;
            Get64(d[|a|..|a| + 8]) == n
  {
    var d := a + Le64(n) + b;
    assert d[|a|..|a| + 8] == Le64(n);
    RoundTrip64(n);
  }

  lemma {:induction false} FieldRoundTrip(conv: Conversion, kind: Kind, v: Value, a: bytes, b: bytes)
    requires v != Null && Fits(kind, v) && Short(v)
    ensures var f := FieldBytes(conv, kind, v);
            ReadField(kind, a + f + b, |a|) == Some((Canon(conv, kind, v), |a| + |f|))
  {
    hide Le64, Get64, Get32, Le32;
    var f := FieldBytes(conv, kind, v);
    match v
    case Int(n) => WordRoundTrip(a, if kind == FloatType then conv(n) else Unsigned(n), b);
    case Str(s) => PrefixedRoundTrip(a, s, b);
    case Bool(_) => assert (a + f + b)[|a|] == f[0];
    case Float(bits) => WordRoundTrip(a, bits, b);
    case Blob(data) => PrefixedRoundTrip(a, data, b);
    case NilBlob => PrefixedRoundTrip(a, [], b);
    case Time(nanos, _) => WordRoundTrip(a, Unsigned(nanos), b);
  }

  predicate AllShort(cs: seq<Column>, row: Row)
  {
    forall i :: 0 <= i < |cs| && cs[i].name in row ==> Short(row[cs[i].name])
  }

  /** The row read back holds each stored column as its value reads back. */
  ghost predicate ReadsBack(conv: Conversion, cs: seq<Column>, row: Row, r: Row)
    requires Storable(cs, row)
  {
    && r.Keys == Names(cs)
    && (forall i :: 0 <= i < |cs| ==> cs[i].name in r && r[cs[i].name] == Canon(conv, cs[i].kind, row[cs[i].name]))
  }

  lemma {:induction false} ReadsBackPush(conv: Conversion, cs: seq<Column>, row: Row, i: nat, r: Row)
    requires Distinct(cs) && Storable(cs, row) && i < |cs| && Storable(cs[..i], row) && ReadsBack(conv, cs[..i], row, r)
    ensures Storable(cs[..i + 1], row)
    ensures ReadsBack(conv, cs[..i + 1], row, r[cs[i].name := Canon(conv, cs[i].kind, row[cs[i].name])])
  {
    hide Canon, Fits, Names;
    NamesNext(cs, i);
    var t := cs[..i + 1];
    assert forall k :: 0 <= k < i ==> cs[..i][k] == t[k];
  }

  /** The bit of a column says whether it is NULL. */
  lemma {:induction false} MarkedIsNull(conv: Conversion, schema: Schema, row: Row, data: bytes, i: nat)
    requires IsEncoding(conv, schema, row, data) && i < |schema.columns|
    ensures Marked(data, i) <==> row[schema.columns[i].name] == Null
  {
    hide Fits, Bit, Fields, NullsAllowed;
    var n := BitmapSize(|schema.columns|);
    assert data[..n][i / 8] == data[i / 8];
    assert Marked(data[..n], i) <==> NullsOf(schema.columns, row)[i];
  }

  /** The bytes of a column are where the columns before it end. */
  lemma {:induction false} FieldPlace(conv: Conversion, schema: Schema, row: Row, data: bytes, i: nat)
    requires IsEncoding(conv, schema, row, data) && i < |schema.columns|
    ensures Storable(schema.columns[..i], row)
    ensures var p := BitmapSize(|schema.columns|) + |Fields(conv, schema.columns[..i], row)|;
            var f := FieldBytes(conv, schema.columns[i].kind, row[schema.columns[i].name]);
            p + |f| <= |data| && data == data[..p] + f + data[p + |f|..]
  {
    hide Fits, Fields, FieldBytes, Marks, NullsAllowed;
    var cs := schema.columns;
    FieldsStep(conv, cs, row, i);
    FieldsPrefix(conv, cs, row, i + 1);
    SplitAround(data, BitmapSize(|cs|), Fields(conv, cs[..i], row),
      FieldBytes(conv, cs[i].kind, row[cs[i].name]), Fields(conv, cs, row));
  }

  lemma {:induction false} FieldReadBack(conv: Conversion, schema: Schema, row: Row, data: bytes, i: nat)
    requires IsEncoding(conv, schema, row, data) && i < |schema.columns|
    requires row[schema.columns[i].name] != Null && Short(row[schema.columns[i].name])
    ensures Storable(schema.columns[..i], row)
    ensures var p := BitmapSize(|schema.columns|) + |Fields(conv, schema.columns[..i], row)|;
            var (kind, v) := (schema.columns[i].kind, row[schema.columns[i].name]);
            && p <= |data|
            && ReadField(kind, data, p) == Some((Canon(conv, kind, v), p + |FieldBytes(conv, kind, v)|))
  {
    hide ReadField, FieldBytes, Canon, Fits, Marks, Fields, NullsAllowed;
    FieldPlace(conv, schema, row, data, i);
    var p := BitmapSize(|schema.columns|) + |Fields(conv, schema.columns[..i], row)|;
    var (kind, v) := (schema.columns[i].kind, row[schema.columns[i].name]);
    FieldRoundTrip(conv, kind, v, data[..p], data[p + |FieldBytes(conv, kind, v)|..]);
  }

  lemma {:induction false} ParsedEncoding(conv: Conversion, schema: Schema, row: Row, data: bytes, i: nat)
    requires ValidSchema(schema.columns) && IsEncoding(conv, schema, row, data)
    requires AllShort(schema.columns, row) && i <= |schema.columns|
    ensures Storable(schema.columns[..i], row)
    ensures var r := Parsed(schema.columns, data, i);
            && r.Some?
            && r.value.1 == BitmapSize(|schema.columns|) + |Fields(conv, schema.columns[..i], row)|
            && ReadsBack(conv, schema.columns[..i], row, r.value.0)
  {
    hide ReadField, FieldBytes, Canon, Fits, Marked, Marks, ReadsBack, Fields, NullsAllowed;
    var cs := schema.columns;
    if i == 0 {
      NothingRead(conv, row);
      assert cs[..0] == [];
    } else {
      ParsedEncoding(conv, schema, row, data, i - 1);
      var v, r := row[cs[i - 1].name], Parsed(cs, data, i - 1).value;
      FieldsStep(conv, cs, row, i - 1);
      MarkedIsNull(conv, schema, row, data, i - 1);
      ReadsBackPush(conv, cs, row, i - 1, r.0);
      if v == Null {
        NullField(conv, cs[i - 1].kind);
      } else {
        FieldReadBack(conv, schema, row, data, i - 1);
      }
    }
  }

  lemma NothingRead(conv: Conversion, row: Row)
    ensures Fields(conv, [], row) == [] && ReadsBack(conv, [], row, map[])
  {
  }

  lemma NullField(conv: Conversion, kind: Kind)
    ensures FieldBytes(conv, kind, Null) == [] && Canon(conv, kind, Null) == Null
  {
  }

  lemma {:induction false} SplitAround(data: bytes, n: nat, a: bytes, f: bytes, all: bytes)
    requires n <= |data| && data[n..] == all && a + f <= all
    ensures var p := n + |a|;
            p + |f| <= |data| && data == data[..p] + f + data[p + |f|..]
  {
    var p := n + |a|;
    assert all[|a|..|a| + |f|] == (a + f)[|a|..] == f;
    assert data[p..p + |f|] == data[n..][|a|..|a| + |f|];
  }

  /** The first `i` columns and no other, each NULL or of its type, and short. */
  ghost predicate Shaped(cs: seq<Column>, i: nat, r: Row)
    requires i <= |cs|
  {
    && r.Keys == Names(cs[..i])
    && (forall k :: 0 <= k < i ==> cs[k].name in r && (r[cs[k].name] == Null || Fits(cs[k].kind, r[cs[k].name])))
    && (forall k :: 0 <= k < i ==> cs[k].name in r && Short(r[cs[k].name]))
    && (forall k :: 0 <= k < i ==> cs[k].name in r && Settled(cs[k].kind, r[cs[k].name]))
  }

  lemma {:induction false} ShapedPush(cs: seq<Column>, i: nat, r: Row, v: Value)
    requires Distinct(cs) && i < |cs| && Shaped(cs, i, r) && Short(v) && (v == Null || Fits(cs[i].kind, v))
    requires Settled(cs[i].kind, v)
    ensures Shaped(cs, i + 1, r[cs[i].name := v])
  {
    hide Fits, Short, Settled, Names;
    NamesNext(cs, i);
  }

  /** What decoding yields, whatever the bytes. */
  lemma {:induction false} ParsedShape(cs: seq<Column>, data: bytes, i: nat)
    requires Distinct(cs) && BitmapSize(|cs|) <= |data| && i <= |cs| && Parsed(cs, data, i).Some?
    ensures Shaped(cs, i, Parsed(cs, data, i).value.0)
  {
    hide ReadField, Fits, Bit, Shaped;
    if i == 0 {
      ShapedNone(cs);
    } else {
      ParsedShape(cs, data, i - 1);
      var before := Parsed(cs, data, i - 1).value;
      ShapedPush(cs, i - 1, before.0,
        if Marked(data, i - 1) then Null else ReadField(cs[i - 1].kind, data, before.1).value.0);
    }
  }

  lemma ShapedNone(cs: seq<Column>)
    ensures Shaped(cs, 0, map[])
  {
  }

  /** Whatever the bytes, a decoded row is canonical and has the columns and nothing else. */
  lemma {:induction false} DecodedCanonical(cs: seq<Column>, data: bytes)
    requires Distinct(cs) && Decoded(cs, data).Some?
    ensures Canonical(cs, Decoded(cs, data).value) && Storable(cs, Decoded(cs, data).value)
    ensures Decoded(cs, data).value.Keys == Names(cs)
  {
    hide Parsed, Fits, Names;
    ParsedShape(cs, data, |cs|);
    assert cs[..|cs|] == cs;
  }

  lemma {:induction false} ReadBackIsShort(conv: Conversion, cs: seq<Column>, row: Row, r: Row)
    requires Storable(cs, row) && ReadsBack(conv, cs, row, r) && Shaped(cs, |cs|, r)
    ensures AllShort(cs, row)
  {
    hide Fits;
    forall i | 0 <= i < |cs| && cs[i].name in row ensures Short(row[cs[i].name]) {
      assert Short(r[cs[i].name]);
    }
  }

  /**
   * Decoding an encoded row gives the row back, every byte used, exactly when
   * no string or byte value needs more than 32 bits for its length.
   */
  lemma {:induction false} RowRoundTrip(conv: Conversion, schema: Schema, row: Row, data: bytes)
    requires ValidSchema(schema.columns) && IsEncoding(conv, schema, row, data)
    ensures AllShort(schema.columns, row) <==>
            Decoded(schema.columns, data).Some? && ReadsBack(conv, schema.columns, row, Decoded(schema.columns, data).value)
  {
    hide Fits, Bit, Parsed, Fields, Marks, Shaped, ReadsBack, AllShort, NullsAllowed, Storable;
    var cs := schema.columns;
    assert cs[..|cs|] == cs;
    if AllShort(cs, row) {
      ParsedEncoding(conv, schema, row, data, |cs|);
    } else if Decoded(cs, data).Some? && ReadsBack(conv, cs, row, Decoded(cs, data).value) {
      ParsedShape(cs, data, |cs|);
      ReadBackIsShort(conv, cs, row, Decoded(cs, data).value);
    }
  }

  lemma {:induction false} SubsetSameSize<T>(a: set<T>, b: set<T>)
    requires a <= b && |a| == |b|
    ensures a == b
  {
    if x :| x in b && x !in a {
      SubsetBound(a + {x}, b);
      assert false;
    }
  }

  lemma {:induction false} SubsetBound<T>(a: set<T>, b: set<T>)
    requires a <= b
    ensures |a| <= |b|
  {
    if a != {} {
      var x :| x in a;
      SubsetBound(a - {x}, b - {x});
    }
  }

  /** An accepted row has the columns and nothing else. */
  lemma {:induction false} RowKeys(schema: Schema, row: Row)
    requires Distinct(schema.columns) && WellTyped(schema, row)
    ensures row.Keys == Names(schema.columns)
  {
    hide Fits, NullsAllowed, Names;
    var cs := schema.columns;
    NamesCount(cs, |cs|);
    assert cs[..|cs|] == cs;
    forall name | name in Names(cs) ensures name in row { NamesAt(cs, name); }
    assert |row| == |row.Keys|;
    SubsetSameSize(Names(cs), row.Keys);
  }

  lemma OneFieldRow(conv: Conversion, name: Name, v: Value)
    requires v != Null && Fits(BytesType, v)
    ensures var row: Row := map[name := v];
            Storable([Column(name, BytesType)], row) && Fields(conv, [Column(name, BytesType)], row) == FieldBytes(conv, BytesType, v)
  {
    var row: Row := map[name := v];
    assert [Column(name, BytesType)][..0] == [];
    assert Fields(conv, [], row) == [];
  }

  lemma {:induction false} ClearBitmap(rest: bytes)
    ensures forall i: nat :: i < 8 ==> !Marked([0] + rest, i) && !Marked([0], i)
  {
    forall i: nat | i < 8 ensures !Marked([0] + rest, i) && !Marked([0], i) { ZeroHasNoBits(i); }
  }

  /** With a value of 4 GiB, whose length is stored as 0, the encoded row does not decode at all. */
  lemma {:induction false} LongValueLost(conv: Conversion, name: Name, s: bytes)
    requires name.text != "" && |s| == 0x1_0000_0000
    ensures var schema := Schema([Column(name, BytesType)], {}, {});
            var row: Row := map[name := Blob(s)];
            var data := [0] + Prefixed(s);
            ValidSchema(schema.columns) && IsEncoding(conv, schema, row, data) && Decoded(schema.columns, data) == None
  {
    hide Bit, Fields, Le32, Get32;
    var cs, data := [Column(name, BytesType)], [0] + Prefixed(s);
    OneFieldRow(conv, name, Blob(s));
    ClearBitmap(Prefixed(s));
    assert data[..1] == [0] && data[1..] == Prefixed(s);
    assert data[1..5] == Le32(0);
    RoundTrip32(0);
    assert Parsed(cs, data, 0) == Some((map[], 1));
    assert Parsed(cs, data, 1) == Some((map[name := NilBlob], 5));
  }

  /** Every value reads back as itself: what decoding gives. */
  predicate Canonical(cs: seq<Column>, row: Row)
  {
    forall i :: 0 <= i < |cs| && cs[i].name in row ==> Settled(cs[i].kind, row[cs[i].name])
  }

  /** A canonical row is itself what decoding its encoding returns, exactly when its values are short. */
  lemma {:induction false} CanonicalRoundTrip(conv: Conversion, schema: Schema, row: Row, data: bytes)
    requires ValidSchema(schema.columns) && IsEncoding(conv, schema, row, data) && Canonical(schema.columns, row)
    ensures Decoded(schema.columns, data) == Some(row) <==> AllShort(schema.columns, row)
  {
    hide Fits, Bit, Parsed, Fields, Marks, AllShort, NullsAllowed, Names;
    RowRoundTrip(conv, schema, row, data);
    RowKeys(schema, row);
    var cs := schema.columns;
    if Decoded(cs, data) == Some(row) {
      ParsedShape(cs, data, |cs|);
      assert cs[..|cs|] == cs;
      assert ReadsBack(conv, cs, row, row);
    } else if AllShort(cs, row) {
      SameRow(conv, cs, row, Decoded(cs, data).value);
    }
  }

  lemma {:induction false} SameRow(conv: Conversion, cs: seq<Column>, row: Row, r: Row)
    requires Storable(cs, row) && ReadsBack(conv, cs, row, r) && Canonical(cs, row) && row.Keys == Names(cs)
    ensures r == row
  {
    hide Fits, Names;
    forall name | name in row ensures name in r && r[name] == row[name] {
      NamesAt(cs, name);
    }
  }

  // --------------------------------------------------- decoding, then encoding

  lemma {:induction false} FieldReencode(conv: Conversion, kind: Kind, data: bytes, p: nat)
    requires p <= |data| && ReadField(kind, data, p).Some?
    ensures var (v, q) := ReadField(kind, data, p).value;
            v != Null && Fits(kind, v) && FieldBytes(conv, kind, v) == data[p..q]
  {
    hide Le64, Get64, Get32, Le32;
    match kind
    case IntType => Reencode64(data[p..p + 8]);
    case FloatType => Reencode64(data[p..p + 8]);
    case TimestampType => Reencode64(data[p..p + 8]);
    case BoolType =>
    case StringType => PrefixedReencode(data, p);
    case BytesType => PrefixedReencode(data, p);
    case Unknown =>
  }

  lemma {:induction false} PrefixedReencode(data: bytes, p: nat)
    requires p + 4 <= |data| && p + 4 + Get32(data[p..p + 4]) <= |data|
    ensures var n := Get32(data[p..p + 4]);
            Prefixed(data[p + 4..p + 4 + n]) == data[p..p + 4 + n]
  {
    hide Le32, Get32;
    Reencode32(data[p..p + 4]);
    var n := Get32(data[p..p + 4]);
    assert |data[p + 4..p + 4 + n]| % 0x1_0000_0000 == n;
    assert data[p..p + 4 + n] == data[p..p + 4] + data[p + 4..p + 4 + n];
  }

  lemma {:induction false} FieldsSame(conv: Conversion, cs: seq<Column>, a: Row, b: Row)
    requires Storable(cs, a) && Storable(cs, b)
    requires forall i :: 0 <= i < |cs| ==> a[cs[i].name] == b[cs[i].name]
    ensures Fields(conv, cs, a) == Fields(conv, cs, b)
  {
    hide FieldBytes, Fits;
    if cs != [] { FieldsSame(conv, cs[..|cs| - 1], a, b); }
  }

  /** After `i` columns the bytes used so far are the encoded fields of the row so far, and its NULLs are the marks. */
  ghost predicate Reread(conv: Conversion, cs: seq<Column>, data: bytes, i: nat, r: Row, p: nat)
    requires i <= |cs|
  {
    && BitmapSize(|cs|) <= p <= |data|
    && Storable(cs[..i], r)
    && Fields(conv, cs[..i], r) == data[BitmapSize(|cs|)..p]
    && forall k :: 0 <= k < i ==> cs[k].name in r && (Marked(data, k) <==> r[cs[k].name] == Null)
  }

  lemma {:induction false} RereadPush(conv: Conversion, cs: seq<Column>, data: bytes, i: nat, r: Row, p: nat, v: Value, q: nat)
    requires Distinct(cs) && i < |cs| && Reread(conv, cs, data, i, r, p) && p <= q <= |data|
    requires v != Null ==> Fits(cs[i].kind, v)
    requires Marked(data, i) <==> v == Null
    requires FieldBytes(conv, cs[i].kind, v) == data[p..q]
    ensures Reread(conv, cs, data, i + 1, r[cs[i].name := v], q)
  {
    hide FieldBytes, Fits, Marked, Fields;
    var r', t := r[cs[i].name := v], cs[..i + 1];
    assert forall k :: 0 <= k < i ==> cs[..i][k] == t[k];
    assert Storable(t, r');
    FieldsStep(conv, t, r', i);
    assert t[..i] == cs[..i] && t[..i + 1] == t;
    FieldsSame(conv, cs[..i], r, r');
    assert data[BitmapSize(|cs|)..p] + data[p..q] == data[BitmapSize(|cs|)..q];
  }

  lemma {:induction false} ParsedReread(conv: Conversion, cs: seq<Column>, data: bytes, i: nat)
    requires Distinct(cs) && BitmapSize(|cs|) <= |data| && i <= |cs| && Parsed(cs, data, i).Some?
    ensures Reread(conv, cs, data, i, Parsed(cs, data, i).value.0, Parsed(cs, data, i).value.1)
  {
    hide ReadField, FieldBytes, Fits, Marked, Reread;
    if i == 0 {
      RereadNone(conv, cs, data);
    } else {
      ParsedReread(conv, cs, data, i - 1);
      var (r, p) := Parsed(cs, data, i - 1).value;
      if Marked(data, i - 1) {
        NullField(conv, cs[i - 1].kind);
        RereadPush(conv, cs, data, i - 1, r, p, Null, p);
      } else {
        FieldReencode(conv, cs[i - 1].kind, data, p);
        var (v, q) := ReadField(cs[i - 1].kind, data, p).value;
        RereadPush(conv, cs, data, i - 1, r, p, v, q);
      }
    }
  }

  lemma RereadNone(conv: Conversion, cs: seq<Column>, data: bytes)
    requires BitmapSize(|cs|) <= |data|
    ensures Reread(conv, cs, data, 0, map[], BitmapSize(|cs|))
  {
  }

  /** No mark past the last column. */
  predicate SpareClear(cs: seq<Column>, data: bytes)
    requires BitmapSize(|cs|) <= |data|
  {
    forall i: nat :: |cs| <= i < 8 * BitmapSize(|cs|) ==> !Marked(data, i)
  }

  /**
   * Bytes that decode are the encoding of the row they decode to, exactly
   * when the spare bits of the bitmap are clear and no NULL is forbidden.
   */
  lemma {:induction false} Reencoding(conv: Conversion, schema: Schema, data: bytes, row: Row)
    requires ValidSchema(schema.columns) && Decoded(schema.columns, data) == Some(row)
    ensures IsEncoding(conv, schema, row, data) <==> SpareClear(schema.columns, data) && NullsAllowed(schema, row)
  {
    hide Fits, Bit, Parsed, Fields, NullsAllowed, Names;
    var cs := schema.columns;
    var n := BitmapSize(|cs|);
    assert cs[..|cs|] == cs;
    ParsedShape(cs, data, |cs|);
    NamesCount(cs, |cs|);
    assert |row| == |row.Keys|;
    ParsedReread(conv, cs, data, |cs|);
    assert forall i: nat :: i < 8 * n ==> Marked(data[..n], i) == Marked(data, i);
    if IsEncoding(conv, schema, row, data) {
      assert Marks(data[..n], NullsOf(cs, row), |cs|);
    }
  }

  // ---------------------------------------------------------------- methods

  method AppendField(conv: Conversion, c: Column, v: Value, b: bytes) returns (r: Option<bytes>)
    requires v != Null
    ensures r == if Fits(c.kind, v) then Some(b + FieldBytes(conv, c.kind, v)) else None
  {
    match c.kind
    case IntType =>
      if !v.Int? { return None; }
      return Some(b + Le64(Unsigned(v.n)));
    case StringType =>
      if !v.Str? { return None; }
      var sized := b + Le32(|v.s| % 0x1_0000_0000);
      assert sized + v.s == b + Prefixed(v.s);
      return Some(sized + v.s);
    case BoolType =>
      if !v.Bool? { return None; }
      if v.b { return Some(b + [1]); } else { return Some(b + [0]); }
    case FloatType =>
      if v.Float? { return Some(b + Le64(v.bits)); }
      if v.Int? { return Some(b + Le64(conv(v.n))); }
      return None;
    case BytesType =>
      if !v.Blob? && !v.NilBlob? { return None; }
      var data := if v.Blob? then v.data else [];
      var sized := b + Le32(|data| % 0x1_0000_0000);
      assert sized + data == b + Prefixed(data);
      return Some(sized + data);
    case TimestampType =>
      if !v.Time? { return None; }
      return Some(b + Le64(Unsigned(v.nanos)));
    case Unknown => return None;
  }

  /** The buffer after `i` columns. */
  ghost predicate Buffered(conv: Conversion, cs: seq<Column>, row: Row, i: nat, b: bytes)
    requires i <= |cs|
  {
    var n := BitmapSize(|cs|);
    && Storable(cs[..i], row)
    && |b| >= n
    && Marks(b[..n], NullsOf(cs[..i], row), |cs|)
    && b[n..] == Fields(conv, cs[..i], row)
  }

  lemma {:induction false} BufferedNone(conv: Conversion, cs: seq<Column>, row: Row, b: bytes)
    requires |b| == BitmapSize(|cs|) && forall i :: 0 <= i < |b| ==> b[i] == 0
    ensures Buffered(conv, cs, row, 0, b)
  {
    forall i: nat | i < 8 * |b| ensures !Marked(b, i) { ZeroHasNoBits(i % 8); }
    assert b[..|b|] == b;
  }

  lemma {:induction false} BufferedNull(conv: Conversion, cs: seq<Column>, row: Row, i: nat, b: bytes, r: bytes)
    requires i < |cs| && Buffered(conv, cs, row, i, b) && cs[i].name in row && row[cs[i].name] == Null && |r| == |b|
    requires forall k: nat :: k < 8 * |b| ==> (Marked(r, k) <==> Marked(b, k) || k == i)
    requires forall j :: 0 <= j < |b| && j != i / 8 ==> r[j] == b[j]
    ensures Buffered(conv, cs, row, i + 1, r)
  {
    hide Bit, Fields, Fits;
    var n := BitmapSize(|cs|);
    assert forall k :: 0 <= k < i ==> cs[..i][k] == cs[..i + 1][k];
    FieldsStep(conv, cs[..i + 1], row, i);
    assert cs[..i + 1][..i] == cs[..i] && cs[..i + 1][..i + 1] == cs[..i + 1];
    NullField(conv, cs[i].kind);
    forall k: nat | k < 8 * n ensures Marked(r[..n], k) <==> k < i + 1 && NullsOf(cs[..i + 1], row)[k] {
      assert r[..n][k / 8] == r[k / 8] && b[..n][k / 8] == b[k / 8];
      assert Marked(b[..n], k) <==> k < i && NullsOf(cs[..i], row)[k];
      assert Marked(r, k) <==> Marked(b, k) || k == i;
    }
    assert r[n..] == b[n..];
  }

  lemma {:induction false} BufferedField(conv: Conversion, cs: seq<Column>, row: Row, i: nat, b: bytes)
    requires i < |cs| && Buffered(conv, cs, row, i, b) && cs[i].name in row && row[cs[i].name] != Null
    requires Fits(cs[i].kind, row[cs[i].name])
    ensures Buffered(conv, cs, row, i + 1, b + FieldBytes(conv, cs[i].kind, row[cs[i].name]))
  {
    hide Bit, Fields, Fits, FieldBytes;
    var n := BitmapSize(|cs|);
    var f := FieldBytes(conv, cs[i].kind, row[cs[i].name]);
    assert forall k :: 0 <= k < i ==> cs[..i][k] == cs[..i + 1][k];
    FieldsStep(conv, cs[..i + 1], row, i);
    assert cs[..i + 1][..i] == cs[..i] && cs[..i + 1][..i + 1] == cs[..i + 1];
    assert (b + f)[..n] == b[..n] && (b + f)[n..] == b[n..] + f;
    forall k: nat | k < 8 * n ensures Marked(b[..n], k) <==> k < i + 1 && NullsOf(cs[..i + 1], row)[k] {
      assert Marked(b[..n], k) <==> k < i && NullsOf(cs[..i], row)[k];
    }
  }

  /** Encode a row; the buffer starts as an empty bitmap, whose bits are set as NULLs are met. */
  method Encode(conv: Conversion, schema: Schema, row: Row) returns (r: Option<bytes>)
    requires ValidSchema(schema.columns)
    ensures r.Some? <==> WellTyped(schema, row)
    ensures r.Some? ==> IsEncoding(conv, schema, row, r.value)
  {
    hide Fits, Bit, FieldBytes, Fields, Buffered, Marks;
    var cs := schema.columns;
    if |row| != |cs| { return None; }
    var b: bytes := seq(BitmapSize(|cs|), _ => 0);
    BufferedNone(conv, cs, row, b);
    for i := 0 to |cs|
      invariant Buffered(conv, cs, row, i, b)
      invariant |b| >= BitmapSize(|cs|)
      invariant forall k :: 0 <= k < i ==> cs[k].name in row && (row[cs[k].name] == Null ==> cs[k].name !in schema.notNull)
      invariant forall k :: 0 <= k < i ==> cs[k].name in row && (row[cs[k].name] != Null ==> Fits(cs[k].kind, row[cs[k].name]))
    {
      var c := cs[i];
      if c.name !in row { return None; }
      var v := row[c.name];
      if v == Null {
        if c.name in schema.notNull { return None; }
        var at := IndexOf(cs, c);
        var marked := SetNull(b, at);
        BufferedNull(conv, cs, row, i, b, marked);
        b := marked;
      } else {
        var more := AppendField(conv, c, v, b);
        if more.None? { return None; }
        BufferedField(conv, cs, row, i, b);
        b := more.value;
      }
    }
    BufferedAll(conv, schema, row, b);
    return Some(b);
  }

  lemma {:induction false} BufferedAll(conv: Conversion, schema: Schema, row: Row, b: bytes)
    requires WellTyped(schema, row) && Buffered(conv, schema.columns, row, |schema.columns|, b)
    ensures IsEncoding(conv, schema, row, b)
  {
    assert schema.columns[..|schema.columns|] == schema.columns;
  }

  lemma MarkInside(n: nat, k: nat)
    requires k < n
    ensures k / 8 < BitmapSize(n)
  {
  }

  /** Decode any bytes; every access stays inside them. */
  method Decode(cs: seq<Column>, data: bytes) returns (r: Option<Row>)
    requires ValidSchema(cs)
    ensures r == Decoded(cs, data)
  {
    hide Bit, ReadField, BitmapSize;
    var nullBytes := BitmapSize(|cs|);
    if |data| < nullBytes { return None; }
    var nulls := data[..nullBytes];
    var row: Row, p := map[], nullBytes;
    for k := 0 to |cs|
      invariant p <= |data| && Parsed(cs, data, k) == Some((row, p))
    {
      var c := cs[k];
      var i := IndexOf(cs, c);
      assert i == k;
      MarkInside(|cs|, k);
      assert nulls[k / 8] == data[k / 8];
      if Bit(nulls[i / 8], i % 8) {
        row := row[c.name := Null];
      } else {
        var field := DecodeField(c.kind, data, p);
        if field.None? {
          ParsedFails(cs, data, k + 1, |cs|);
          return None;
        }
        row := row[c.name := field.value.0];
        p := field.value.1;
      }
    }
    if p != |data| { return None; }
    return Some(row);
  }

  /** A non-NULL column at offset `start`: its value and the offset after it. */
  method DecodeField(kind: Kind, data: bytes, start: nat) returns (r: Option<(Value, nat)>)
    requires start <= |data|
    ensures r == ReadField(kind, data, start)
  {
    var p := start;
    match kind
    case IntType =>
      if p + 8 > |data| { return None; }
      return Some((Int(Signed(Get64(data[p..p + 8]))), p + 8));
    case StringType =>
      if p + 4 > |data| { return None; }
      var n := Get32(data[p..p + 4]);
      p := p + 4;
      if n < 0 || p + n > |data| { return None; }
      return Some((Str(data[p..p + n]), p + n));
    case BoolType =>
      if p >= |data| || data[p] > 1 { return None; }
      return Some((Bool(data[p] == 1), p + 1));
    case FloatType =>
      if p + 8 > |data| { return None; }
      return Some((Float(Get64(data[p..p + 8])), p + 8));
    case BytesType =>
      if p + 4 > |data| { return None; }
      var n := Get32(data[p..p + 4]);
      p := p + 4;
      if p + n > |data| { return None; }
      return Some((if n == 0 then NilBlob else Blob(data[p..p + n]), p + n));
    case TimestampType =>
      if p + 8 > |data| { return None; }
      return Some((Time(Signed(Get64(data[p..p + 8])), UTC), p + 8));
    case Unknown => return None;
  }

  lemma {:induction false} ParsedFails(cs: seq<Column>, data: bytes, i: nat, j: nat)
    requires BitmapSize(|cs|) <= |data| && i <= j <= |cs| && Parsed(cs, data, i).None?
    ensures Parsed(cs, data, j).None?
  {
    if i < j { ParsedFails(cs, data, i, j - 1); }
  }
}
