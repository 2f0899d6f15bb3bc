/** A table: rows in a store by primary key, with a secondary index on every other column. */
module Table {
  import opened Common
  import opened Bytes
  import opened Codec

  type Key = bytes

  /** What a store record can hold beside its headers. */
  const RECORD_SPACE := 4075

  /** For one column, the keys of the rows with each index key. */
  type Buckets = map<Value, set<Key>>

  function Field(row: Row, c: Name): Value
  {
    if c in row then row[c] else Null
  }

  function IndexField(row: Row, c: Name): Value
  {
    IndexKey(Field(row, c))
  }

  function KeyOf(show: Printer, cs: seq<Column>, row: Row): Key
    requires cs != []
  {
    show(Field(row, cs[0].name))
  }

  // ------------------------------------------------------------- the index

  function AddKey(m: Buckets, x: Value, key: Key): Buckets
  {
    m[x := (if x in m then m[x] else {}) + {key}]
  }

  function DropKey(m: Buckets, x: Value, key: Key): Buckets
  {
    if x !in m then m
    else
      var left := m[x] - {key};
      if left == {} then m - {x} else m[x := left]
  }

  predicate InBucket(m: Buckets, x: Value, key: Key)
  {
    x in m && key in m[x]
  }

  /** The buckets hold exactly the keys of the rows with each index key, and none is empty. */
  ghost predicate ColumnExact(m: Buckets, rows: map<Key, Row>, c: Name)
  {
    && (forall x :: x in m ==> m[x] != {})
    && (forall x, key :: InBucket(m, x, key) <==> key in rows && IndexField(rows[key], c) == x)
  }

  /** Adding a row that was not there stays exact precisely when it is added under the key of what is stored. */
  lemma {:induction false} AddExact(m: Buckets, rows: map<Key, Row>, c: Name, key: Key, x: Value, row: Row)
    requires ColumnExact(m, rows, c) && key !in rows
    ensures ColumnExact(AddKey(m, x, key), rows[key := row], c) <==> IndexField(row, c) == x
  {
    hide IndexField;
    var m', rows' := AddKey(m, x, key), rows[key := row];
    forall w, k ensures InBucket(m', w, k) <==> InBucket(m, w, k) || (w == x && k == key) {}
    if ColumnExact(m', rows', c) {
      assert InBucket(m', x, key);
    }
  }

  lemma {:induction false} DropExact(m: Buckets, rows: map<Key, Row>, c: Name, key: Key)
    requires ColumnExact(m, rows, c) && key in rows
    ensures ColumnExact(DropKey(m, IndexField(rows[key], c), key), rows - {key}, c)
  {
    hide IndexField;
    var x := IndexField(rows[key], c);
    var m', rows' := DropKey(m, x, key), rows - {key};
    forall w, k ensures InBucket(m', w, k) <==> InBucket(m, w, k) && k != key {
      if k == key { assert InBucket(m, w, k) <==> w == x; }
      else if InBucket(m, w, k) && w == x { assert k in m[x] - {key}; }
    }
  }

  type Index = map<Name, Buckets>

  /** The index on all columns after the first. */
  ghost predicate Exact(index: Index, cs: seq<Column>, rows: map<Key, Row>)
  {
    && (forall i :: 1 <= i < |cs| ==> cs[i].name in index && ColumnExact(index[cs[i].name], rows, cs[i].name))
    && (forall c :: c in index ==> exists i :: 1 <= i < |cs| && cs[i].name == c)
  }

  ghost predicate HasColumns(index: Index, cs: seq<Column>)
  {
    forall i :: 1 <= i < |cs| ==> cs[i].name in index
  }

  /** The index with every column's buckets changed by one row added or dropped. */
  ghost predicate Added(cs: seq<Column>, before: Index, after: Index, key: Key, row: Row)
  {
    && after.Keys == before.Keys
    && forall i :: 1 <= i < |cs| && cs[i].name in before ==>
         cs[i].name in after && after[cs[i].name] == AddKey(before[cs[i].name], IndexField(row, cs[i].name), key)
  }

  ghost predicate Dropped(cs: seq<Column>, before: Index, after: Index, key: Key, row: Row)
  {
    && after.Keys == before.Keys
    && forall i :: 1 <= i < |cs| && cs[i].name in before ==>
         cs[i].name in after && after[cs[i].name] == DropKey(before[cs[i].name], IndexField(row, cs[i].name), key)
  }

  /** The index keys are those of what will be read back. */
  predicate SameFields(cs: seq<Column>, a: Row, b: Row)
  {
    forall i :: 1 <= i < |cs| ==> IndexField(a, cs[i].name) == IndexField(b, cs[i].name)
  }

  /** Indexing `row` while `stored` is what reads back keeps the index exact precisely when they agree on the indexed columns. */
  lemma {:induction false} AddedExact(cs: seq<Column>, before: Index, after: Index, rows: map<Key, Row>, key: Key, row: Row, stored: Row)
    requires Exact(before, cs, rows) && key !in rows && Added(cs, before, after, key, row)
    ensures Exact(after, cs, rows[key := stored]) <==> SameFields(cs, row, stored)
  {
    hide ColumnExact, AddKey, IndexField;
    forall i | 1 <= i < |cs|
      ensures ColumnExact(after[cs[i].name], rows[key := stored], cs[i].name) <==> IndexField(row, cs[i].name) == IndexField(stored, cs[i].name)
    {
      AddExact(before[cs[i].name], rows, cs[i].name, key, IndexField(row, cs[i].name), stored);
    }
  }

  /** Indexed under what does not read back, whatever the index was before, a row makes the index inexact. */
  lemma {:induction false} AddedWrong(cs: seq<Column>, before: Index, after: Index, rows: map<Key, Row>, key: Key, row: Row)
    requires HasColumns(before, cs) && Added(cs, before, after, key, row) && key in rows && !SameFields(cs, row, rows[key])
    ensures !Exact(after, cs, rows)
  {
    hide IndexField;
    var i :| 1 <= i < |cs| && IndexField(row, cs[i].name) != IndexField(rows[key], cs[i].name);
    assert InBucket(after[cs[i].name], IndexField(row, cs[i].name), key);
  }

  lemma {:induction false} DroppedExact(cs: seq<Column>, before: Index, after: Index, rows: map<Key, Row>, key: Key)
    requires Exact(before, cs, rows) && key in rows && Dropped(cs, before, after, key, rows[key])
    ensures Exact(after, cs, rows - {key})
  {
    hide ColumnExact, DropKey, IndexField;
    forall i | 1 <= i < |cs| ensures ColumnExact(after[cs[i].name], rows - {key}, cs[i].name) {
      DropExact(before[cs[i].name], rows, cs[i].name, key);
    }
  }

  // ----------------------------------------------------------- constraints

  /** Another row has the same non-NULL value in a unique column. */
  predicate Clash(schema: Schema, a: Row, b: Row, i: nat)
    requires i < |schema.columns|
  {
    var c := schema.columns[i].name;
    c in schema.unique && Field(a, c) != Null && IndexField(b, c) == IndexField(a, c)
  }

  predicate Clashes(schema: Schema, a: Row, b: Row)
  {
    exists i :: 0 <= i < |schema.columns| && Clash(schema, a, b, i)
  }

  lemma {:induction false} ClashesBothWays(schema: Schema, a: Row, b: Row)
    ensures Clashes(schema, a, b) == Clashes(schema, b, a)
  {
    hide Field;
    if Clashes(schema, a, b) {
      var i :| 0 <= i < |schema.columns| && Clash(schema, a, b, i);
      assert Clash(schema, b, a, i);
    }
    if Clashes(schema, b, a) {
      var i :| 0 <= i < |schema.columns| && Clash(schema, b, a, i);
      assert Clash(schema, a, b, i);
    }
  }

  /** No two rows under different keys clash. */
  ghost predicate Consistent(schema: Schema, rows: map<Key, Row>)
  {
    forall a, b :: a in rows && b in rows && a != b ==> !Clashes(schema, rows[a], rows[b])
  }

  /** No row under another key clashes. */
  ghost predicate Admits(schema: Schema, rows: map<Key, Row>, key: Key, row: Row)
  {
    forall b :: b in rows && b != key ==> !Clashes(schema, row, rows[b])
  }

  /** Putting a row keeps the table consistent exactly when the unique check lets it in. */
  lemma {:induction false} AdmittedConsistent(schema: Schema, rows: map<Key, Row>, key: Key, row: Row)
    requires Consistent(schema, rows)
    ensures Consistent(schema, rows[key := row]) <==> Admits(schema, rows, key, row)
  {
    hide Clashes;
    forall b | b in rows ensures Clashes(schema, row, rows[b]) == Clashes(schema, rows[b], row) {
      ClashesBothWays(schema, row, rows[b]);
    }
    if Consistent(schema, rows[key := row]) {
      forall b | b in rows && b != key ensures !Clashes(schema, row, rows[b]) {
        assert rows[key := row][b] == rows[b] && rows[key := row][key] == row;
      }
    }
  }

  /** What the code looks at: rows that print another key. */
  ghost predicate AdmitsPrinted(show: Printer, schema: Schema, rows: map<Key, Row>, key: Key, row: Row)
    requires schema.columns != []
  {
    forall b :: b in rows && KeyOf(show, schema.columns, rows[b]) != key ==> !Clashes(schema, row, rows[b])
  }

  lemma {:induction false} AdmitsAsPrinted(show: Printer, schema: Schema, rows: map<Key, Row>, key: Key, row: Row)
    requires schema.columns != [] && Keyed(show, schema.columns, rows)
    ensures AdmitsPrinted(show, schema, rows, key, row) <==> Admits(schema, rows, key, row)
  {
    hide Clashes, KeyOf;
  }

  // ------------------------------------------------------------- the table

  /** The rows as they read back. */
  ghost function RowsOf(cs: seq<Column>, stored: map<Key, bytes>): map<Key, Row>
    requires AllDecode(cs, stored)
  {
    map k | k in stored :: Decoded(cs, stored[k]).value
  }

  ghost predicate AllDecode(cs: seq<Column>, stored: map<Key, bytes>)
  {
    forall k :: k in stored ==> Decoded(cs, stored[k]).Some?
  }

  /** Every row is stored under its printed first column. */
  ghost predicate Keyed(show: Printer, cs: seq<Column>, rows: map<Key, Row>)
    requires cs != []
  {
    forall k :: k in rows ==> KeyOf(show, cs, rows[k]) == k
  }

  /** What a row reads back as. */
  ghost function CanonRow(conv: Conversion, cs: seq<Column>, row: Row): Row
  {
    if cs == [] then map[]
    else
      var n := |cs| - 1;
      CanonRow(conv, cs[..n], row)[cs[n].name := Canon(conv, cs[n].kind, Field(row, cs[n].name))]
  }

  lemma {:induction false} CanonReadsBack(conv: Conversion, cs: seq<Column>, row: Row, i: nat)
    requires Distinct(cs) && Storable(cs, row) && i <= |cs|
    ensures Storable(cs[..i], row) && ReadsBack(conv, cs[..i], row, CanonRow(conv, cs[..i], row))
  {
    hide ReadsBack, Fits, Canon;
    if i == 0 {
      NothingRead(conv, row);
      assert cs[..0] == [];
    } else {
      CanonReadsBack(conv, cs, row, i - 1);
      ReadsBackPush(conv, cs, row, i - 1, CanonRow(conv, cs[..i - 1], row));
      assert cs[..i][..i - 1] == cs[..i - 1];
    }
  }

  lemma {:induction false} ReadsBackUnique(conv: Conversion, cs: seq<Column>, row: Row, a: Row, b: Row)
    requires Storable(cs, row) && ReadsBack(conv, cs, row, a) && ReadsBack(conv, cs, row, b)
    ensures a == b
  {
    hide Names, Canon, Fits;
    forall name | name in a ensures a[name] == b[name] { NamesAt(cs, name); }
  }

  function RowSize(conv: Conversion, cs: seq<Column>, row: Row): nat
    requires Storable(cs, row)
  {
    BitmapSize(|cs|) + |Fields(conv, cs, row)|
  }

  lemma {:induction false} EncodedSize(conv: Conversion, schema: Schema, row: Row, data: bytes)
    requires IsEncoding(conv, schema, row, data)
    ensures |data| == RowSize(conv, schema.columns, row)
  {
    hide Fields, Marks;
  }

  /** A row that fits a record has short values. */
  lemma {:induction false} FittingIsShort(conv: Conversion, schema: Schema, row: Row, data: bytes)
    requires IsEncoding(conv, schema, row, data) && |data| <= RECORD_SPACE
    ensures AllShort(schema.columns, row)
  {
    hide Fields, Marks, Bit;
    var cs := schema.columns;
    forall i | 0 <= i < |cs| && cs[i].name in row ensures Short(row[cs[i].name]) {
      FieldPlace(conv, schema, row, data, i);
    }
  }

  /** What the store returns for a row put there. */
  lemma {:induction false} StoredRow(conv: Conversion, schema: Schema, row: Row, data: bytes)
    requires ValidSchema(schema.columns) && IsEncoding(conv, schema, row, data) && |data| <= RECORD_SPACE
    ensures Decoded(schema.columns, data) == Some(CanonRow(conv, schema.columns, row))
  {
    hide Decoded, ReadsBack, Marks, Fields, AllShort, NullsAllowed, Fits;
    var cs := schema.columns;
    FittingIsShort(conv, schema, row, data);
    RowRoundTrip(conv, schema, row, data);
    CanonReadsBack(conv, cs, row, |cs|);
    assert cs[..|cs|] == cs;
    ReadsBackUnique(conv, cs, row, Decoded(cs, data).value, CanonRow(conv, cs, row));
  }

  /** Every indexed value reads back as itself. */
  predicate SettledIndexed(cs: seq<Column>, row: Row)
  {
    forall i :: 1 <= i < |cs| ==> Settled(cs[i].kind, Field(row, cs[i].name))
  }

  lemma {:induction false} CanonFields(conv: Conversion, cs: seq<Column>, row: Row)
    requires Distinct(cs) && Storable(cs, row)
    ensures forall i :: 0 <= i < |cs| ==>
      Field(CanonRow(conv, cs, row), cs[i].name) == Canon(conv, cs[i].kind, Field(row, cs[i].name))
  {
    hide Fits, Names, Canon;
    CanonReadsBack(conv, cs, row, |cs|);
    assert cs[..|cs|] == cs;
    var r := CanonRow(conv, cs, row);
    assert forall i :: 0 <= i < |cs| ==> Field(row, cs[i].name) == row[cs[i].name];
  }

  lemma CanonIndexKey(conv: Conversion, kind: Kind, v: Value)
    ensures IndexKey(Canon(conv, kind, v)) == IndexKey(v) <==> Settled(kind, v)
  {
  }

  /** The fields indexed are the fields stored exactly when every indexed value reads back as itself. */
  lemma {:induction false} CanonSameFields(conv: Conversion, cs: seq<Column>, row: Row)
    requires Distinct(cs) && Storable(cs, row)
    ensures SameFields(cs, row, CanonRow(conv, cs, row)) <==> SettledIndexed(cs, row)
  {
    hide Fits, Canon, IndexKey, CanonRow, Settled;
    CanonFields(conv, cs, row);
    forall i | 1 <= i < |cs|
      ensures IndexField(row, cs[i].name) == IndexField(CanonRow(conv, cs, row), cs[i].name) <==> Settled(cs[i].kind, Field(row, cs[i].name))
    {
      CanonIndexKey(conv, cs[i].kind, Field(row, cs[i].name));
    }
  }

  /** Each key once. */
  ghost predicate Enumerates(ks: seq<Key>, keys: set<Key>)
  {
    && (forall i, j :: 0 <= i < j < |ks| ==> ks[i] != ks[j])
    && (forall k :: k in keys <==> k in ks)
  }

  /** The rows listed under the keys. */
  ghost predicate Lists(listed: seq<Row>, ks: seq<Key>, rows: map<Key, Row>)
  {
    |listed| == |ks| && forall i :: 0 <= i < |ks| ==> ks[i] in rows && listed[i] == rows[ks[i]]
  }

  lemma {:induction false} RowsPut(cs: seq<Column>, stored: map<Key, bytes>, key: Key, data: bytes, row: Row)
    requires AllDecode(cs, stored) && Decoded(cs, data) == Some(row)
    ensures AllDecode(cs, stored[key := data])
    ensures RowsOf(cs, stored[key := data]) == RowsOf(cs, stored)[key := row]
  {
    hide Decoded;
  }

  lemma {:induction false} RowsDrop(cs: seq<Column>, stored: map<Key, bytes>, key: Key)
    requires AllDecode(cs, stored)
    ensures AllDecode(cs, stored - {key})
    ensures RowsOf(cs, stored - {key}) == RowsOf(cs, stored) - {key}
  {
    hide Decoded;
  }

  /** The key that the row prints once it is stored. */
  function PutKey(conv: Conversion, show: Printer, cs: seq<Column>, row: Row): Key
    requires cs != []
  {
    show(Canon(conv, cs[0].kind, Field(row, cs[0].name)))
  }

  /** The row prints the same key before and after it is stored. */
  predicate PrintsSame(conv: Conversion, show: Printer, cs: seq<Column>, row: Row)
    requires cs != []
  {
    KeyOf(show, cs, row) == PutKey(conv, show, cs, row)
  }

  /** Changes that leave the first column alone, or give it a value that prints the same once stored. */
  predicate KeyKept(conv: Conversion, show: Printer, cs: seq<Column>, changes: Row)
    requires cs != []
  {
    cs[0].name in changes ==> PrintsSame(conv, show, cs, changes)
  }

  /** The row is well typed and its record fits a page. */
  predicate Acceptable(conv: Conversion, schema: Schema, key: Key, row: Row)
  {
    WellTyped(schema, row) && |key| + RowSize(conv, schema.columns, row) <= RECORD_SPACE
  }

  /** Every row could be put again as it is. */
  ghost predicate AllAcceptable(conv: Conversion, schema: Schema, rows: map<Key, Row>)
  {
    forall k :: k in rows ==> Acceptable(conv, schema, k, rows[k])
  }

  lemma {:induction false} CanonIsRow(conv: Conversion, schema: Schema, row: Row)
    requires Distinct(schema.columns) && WellTyped(schema, row) && Canonical(schema.columns, row)
    ensures CanonRow(conv, schema.columns, row) == row
  {
    hide ReadsBack, NullsAllowed, Fits, CanonRow;
    var cs := schema.columns;
    CanonReadsBack(conv, cs, row, |cs|);
    assert cs[..|cs|] == cs;
    RowKeys(schema, row);
    SameRow(conv, cs, row, CanonRow(conv, cs, row));
  }

  lemma CanonBytes(conv: Conversion, kind: Kind, v: Value)
    requires v != Null ==> Fits(kind, v)
    ensures var c := Canon(conv, kind, v);
            (c != Null ==> Fits(kind, c)) && FieldBytes(conv, kind, c) == FieldBytes(conv, kind, v)
  {
    hide Le64, Le32;
  }

  /** What reads back encodes to the same fields. */
  lemma {:induction false} CanonSameBytes(conv: Conversion, cs: seq<Column>, row: Row, r: Row)
    requires Storable(cs, row)
    requires forall i :: 0 <= i < |cs| ==> cs[i].name in r && r[cs[i].name] == Canon(conv, cs[i].kind, row[cs[i].name])
    ensures Storable(cs, r) && Fields(conv, cs, r) == Fields(conv, cs, row)
  {
    hide FieldBytes, Fits, Canon;
    forall i | 0 <= i < |cs| ensures r[cs[i].name] != Null ==> Fits(cs[i].kind, r[cs[i].name]) {
      CanonBytes(conv, cs[i].kind, row[cs[i].name]);
    }
    if cs != [] {
      var n := |cs| - 1;
      CanonSameBytes(conv, cs[..n], row, r);
      CanonBytes(conv, cs[n].kind, row[cs[n].name]);
    }
  }

  /** A row that was accepted is acceptable as it reads back. */
  lemma {:induction false} CanonAcceptable(conv: Conversion, schema: Schema, key: Key, row: Row)
    requires Distinct(schema.columns) && Acceptable(conv, schema, key, row)
    ensures Acceptable(conv, schema, key, CanonRow(conv, schema.columns, row))
  {
    hide Fits, Fields, CanonRow, Names;
    var cs, r := schema.columns, CanonRow(conv, schema.columns, row);
    CanonReadsBack(conv, cs, row, |cs|);
    assert cs[..|cs|] == cs;
    CanonSameBytes(conv, cs, row, r);
    NamesCount(cs, |cs|);
    assert |r| == |r.Keys| == |cs|;
    forall i | 0 <= i < |cs| && r[cs[i].name] == Null ensures cs[i].name !in schema.notNull {
      CanonSettled(conv, cs[i].kind, row[cs[i].name]);
    }
  }

  /** What reads back is canonical and prints its key. */
  lemma {:induction false} CanonicalPrints(conv: Conversion, show: Printer, cs: seq<Column>, row: Row)
    requires cs != [] && Canonical(cs, row)
    ensures PrintsSame(conv, show, cs, row) && SettledIndexed(cs, row)
  {
    hide Settled, Canon;
    CanonSettled(conv, cs[0].kind, Field(row, cs[0].name));
    NullSettled();
  }

  lemma NullSettled()
    ensures forall kind :: Settled(kind, Null)
  {
  }

  /** The row's unsettled value in a unique column is, as it reads back, the value of another row. */
  ghost predicate HiddenClash(conv: Conversion, schema: Schema, row: Row, b: Row, i: nat)
    requires i < |schema.columns|
  {
    var c := schema.columns[i];
    && c.name in schema.unique && !Settled(c.kind, Field(row, c.name))
    && IndexKey(Canon(conv, c.kind, Field(row, c.name))) == IndexField(b, c.name)
  }

  /**
   * The unique check looks at the row before it is stored.  A row it lets in
   * leaves the table consistent exactly when no unsettled value of it turns
   * into the value of another row.
   */
  lemma {:induction false} AdmittedStaysUnique(conv: Conversion, schema: Schema, rows: map<Key, Row>, key: Key, row: Row)
    requires Distinct(schema.columns) && Storable(schema.columns, row)
    requires Consistent(schema, rows) && Admits(schema, rows, key, row)
    ensures Consistent(schema, rows[key := CanonRow(conv, schema.columns, row)]) <==>
            forall b, i: nat :: b in rows && b != key && i < |schema.columns| ==> !HiddenClash(conv, schema, row, rows[b], i)
  {
    hide Fits, CanonRow, Consistent;
    var cs, r := schema.columns, CanonRow(conv, schema.columns, row);
    AdmittedConsistent(schema, rows, key, r);
    forall b | b in rows && b != key
      ensures Clashes(schema, r, rows[b]) <==> exists i: nat :: i < |cs| && HiddenClash(conv, schema, row, rows[b], i)
    {
      StoredClash(conv, schema, row, rows[b]);
    }
  }

  lemma {:induction false} StoredClash(conv: Conversion, schema: Schema, row: Row, b: Row)
    requires Distinct(schema.columns) && Storable(schema.columns, row) && !Clashes(schema, row, b)
    ensures Clashes(schema, CanonRow(conv, schema.columns, row), b) <==>
            exists i: nat :: i < |schema.columns| && HiddenClash(conv, schema, row, b, i)
  {
    hide Fits, CanonRow, Canon, IndexKey, Settled;
    var cs, r := schema.columns, CanonRow(conv, schema.columns, row);
    CanonFields(conv, cs, row);
    forall i: nat | i < |cs| ensures Clash(schema, r, b, i) <==> HiddenClash(conv, schema, row, b, i) {
      assert !Clash(schema, row, b, i);
      CanonSettled(conv, cs[i].kind, Field(row, cs[i].name));
      NullSettled();
    }
  }

  /** The rows under the keys, each once, in some order. */
  ghost predicate IsListing(listed: seq<Row>, rows: map<Key, Row>, keys: set<Key>)
  {
    exists ks :: Enumerates(ks, keys) && Lists(listed, ks, rows)
  }

  /** The keys in the bucket of a value. */
  function BucketOf(index: Index, column: Name, value: Value): set<Key>
  {
    if column in index && IndexKey(value) in index[column] then index[column][IndexKey(value)] else {}
  }

  class Table {
    const schema: Schema
    const conv: Conversion
    const show: Printer
    var stored: map<Key, bytes>
    var secondary: Index

    /** The schema is valid, every stored row decodes, and every column but the first has buckets. */
    ghost predicate Ready()
      reads this
    {
      && ValidSchema(schema.columns) && schema.columns != []
      && AllDecode(schema.columns, stored) && HasColumns(secondary, schema.columns)
    }

    ghost function Rows(): map<Key, Row>
      requires Ready()
      reads this
    {
      RowsOf(schema.columns, stored)
    }

    /** Every row is stored under the key it prints. */
    ghost predicate Loaded()
      reads this
    {
      Ready() && Keyed(show, schema.columns, Rows())
    }

    /** The secondary index is exact. */
    ghost predicate Valid()
      reads this
    {
      Ready() && Exact(secondary, schema.columns, Rows())
    }

    constructor (schema: Schema, conv: Conversion, show: Printer, stored: map<Key, bytes>, secondary: Index)
      ensures this.schema == schema && this.conv == conv && this.show == show
      ensures this.stored == stored && this.secondary == secondary
    {
      this.schema, this.conv, this.show := schema, conv, show;
      this.stored, this.secondary := stored, secondary;
    }

    /** Add the row's key to the bucket of its value in every indexed column. */
    method IndexRow(key: Key, row: Row)
      requires schema.columns != [] && Distinct(schema.columns) && HasColumns(secondary, schema.columns)
      modifies this`secondary
      ensures Added(schema.columns, old(secondary), secondary, key, row) && HasColumns(secondary, schema.columns)
    {
      hide AddKey, IndexField;
      var cs := schema.columns;
      for j := 1 to |cs|
        invariant secondary.Keys == old(secondary).Keys
        invariant forall i :: 1 <= i < j ==>
          cs[i].name in secondary && secondary[cs[i].name] == AddKey(old(secondary)[cs[i].name], IndexField(row, cs[i].name), key)
        invariant forall i :: j <= i < |cs| ==>
          cs[i].name in secondary && secondary[cs[i].name] == old(secondary)[cs[i].name]
      {
        var c := cs[j].name;
        secondary := secondary[c := AddKey(secondary[c], IndexField(row, c), key)];
      }
    }

    /** Take the row's key out again, deleting a bucket that becomes empty. */
    method UnindexRow(key: Key, row: Row)
      requires schema.columns != [] && Distinct(schema.columns) && HasColumns(secondary, schema.columns)
      modifies this`secondary
      ensures Dropped(schema.columns, old(secondary), secondary, key, row) && HasColumns(secondary, schema.columns)
    {
      hide DropKey, IndexField;
      var cs := schema.columns;
      for j := 1 to |cs|
        invariant secondary.Keys == old(secondary).Keys
        invariant forall i :: 1 <= i < j ==>
          cs[i].name in secondary && secondary[cs[i].name] == DropKey(old(secondary)[cs[i].name], IndexField(row, cs[i].name), key)
        invariant forall i :: j <= i < |cs| ==>
          cs[i].name in secondary && secondary[cs[i].name] == old(secondary)[cs[i].name]
      {
        var c := cs[j].name;
        secondary := secondary[c := DropKey(secondary[c], IndexField(row, c), key)];
      }
    }

    /** Every row, once. */
    method Scan() returns (listed: seq<Row>, ghost ks: seq<Key>)
      requires Ready()
      ensures Enumerates(ks, Rows().Keys) && Lists(listed, ks, Rows())
      ensures IsListing(listed, Rows(), Rows().Keys)
    {
      hide Decoded, ValidSchema, HasColumns;
      listed, ks := [], [];
      var todo := stored.Keys;
      while todo != {}
        invariant todo <= stored.Keys
        invariant Enumerates(ks, stored.Keys - todo) && Lists(listed, ks, Rows())
      {
        var k :| k in todo;
        var row := Decode(schema.columns, stored[k]);
        listed, ks, todo := listed + [row.value], ks + [k], todo - {k};
      }
      assert stored.Keys - todo == stored.Keys == Rows().Keys;
    }

    method Get(key: Key) returns (r: Option<Row>)
      requires Ready()
      ensures r == if key in Rows() then Some(Rows()[key]) else None
    {
      hide Decoded, HasColumns;
      if key !in stored { return None; }
      r := Decode(schema.columns, stored[key]);
    }

    /** The unique columns of the new row against every row that prints another key. */
    method ValidateConstraints(key: Key, row: Row) returns (ok: bool)
      requires Ready()
      ensures ok <==> AdmitsPrinted(show, schema, Rows(), key, row)
    {
      hide RowsOf, Decoded, Field, IndexKey, IsListing, KeyOf, HasColumns, ValidSchema;
      var cs := schema.columns;
      var listed, ks := Scan();
      for i := 0 to |cs|
        invariant forall k, a: nat :: 0 <= k < |listed| && a < i && KeyOf(show, cs, listed[k]) != key ==> !Clash(schema, row, listed[k], a)
      {
        var c := cs[i].name;
        if c !in schema.unique || Field(row, c) == Null { continue; }
        for j := 0 to |listed|
          invariant forall k :: 0 <= k < j && KeyOf(show, cs, listed[k]) != key ==> !Clash(schema, row, listed[k], i)
        {
          if KeyOf(show, cs, listed[j]) != key && IndexField(listed[j], c) == IndexField(row, c) {
            assert Clash(schema, row, Rows()[ks[j]], i);
            return false;
          }
        }
      }
      forall b | b in Rows() && KeyOf(show, cs, Rows()[b]) != key ensures !Clashes(schema, row, Rows()[b]) {
        var k :| 0 <= k < |ks| && ks[k] == b;
        assert listed[k] == Rows()[b];
      }
      ok := true;
    }

    /**
     * Store the encoded row and swap its index entries for the old row's.  An
     * exact index stays exact precisely when every indexed value reads back as
     * itself.
     */
    method Insert(key: Key, row: Row) returns (ok: bool)
      requires Ready()
      modifies this`stored, this`secondary
      ensures Ready()
      ensures ok <==> Acceptable(conv, schema, key, row) && AdmitsPrinted(show, schema, old(Rows()), key, row)
      ensures Rows() == if ok then old(Rows())[key := CanonRow(conv, schema.columns, row)] else old(Rows())
      ensures old(Valid()) ==> (Valid() <==> !ok || SettledIndexed(schema.columns, row))
      ensures ok && !SettledIndexed(schema.columns, row) ==> !Valid()
      ensures !ok ==> stored == old(stored) && secondary == old(secondary)
      ensures old(Loaded()) ==> (Loaded() <==> !ok || key == PutKey(conv, show, schema.columns, row))
    {
      hide Decoded, RowsOf, AllDecode, Keyed, IsEncoding, AdmitsPrinted, Exact, Added, Dropped, WellTyped, HasColumns,
           CanonRow, Canon;
      var cs := schema.columns;
      var b := Encode(conv, schema, row);
      if b.None? { return false; }
      var data := b.value;
      var admitted := ValidateConstraints(key, row);
      if !admitted { return false; }
      var found := Get(key);
      EncodedSize(conv, schema, row, data);
      if |key| + |data| > RECORD_SPACE { return false; }
      stored := stored[key := data];
      AfterPut(conv, show, schema, old(stored), key, data, row);
      Reindex(key, found, row, old(Rows()), CanonRow(conv, cs, row));
      CanonSameFields(conv, cs, row);
      ok := true;
    }

    /** Swap the old row's index entries for the new row's; exact again precisely when what is indexed is what is stored. */
    method Reindex(key: Key, found: Option<Row>, row: Row, ghost rows: map<Key, Row>, ghost now: Row)
      requires schema.columns != [] && Distinct(schema.columns) && HasColumns(secondary, schema.columns)
      requires found == if key in rows then Some(rows[key]) else None
      modifies this`secondary
      ensures HasColumns(secondary, schema.columns)
      ensures old(Exact(secondary, schema.columns, rows)) ==>
        (Exact(secondary, schema.columns, rows[key := now]) <==> SameFields(schema.columns, row, now))
      ensures !SameFields(schema.columns, row, now) ==> !Exact(secondary, schema.columns, rows[key := now])
    {
      hide Exact, Added, Dropped, SameFields, HasColumns;
      var cs := schema.columns;
      ghost var exact := Exact(secondary, cs, rows);
      if found.Some? {
        UnindexRow(key, found.value);
        if exact { DroppedExact(cs, old(secondary), secondary, rows, key); }
      }
      ghost var mid, without := secondary, rows - {key};
      if found.None? { assert without == rows; }
      IndexRow(key, row);
      if exact { AddedExact(cs, mid, secondary, without, key, row, now); }
      assert without[key := now] == rows[key := now];
      if !SameFields(cs, row, now) { AddedWrong(cs, mid, secondary, rows[key := now], key, row); }
    }

    /** Put a row under the key it prints. */
    method InsertOwn(row: Row) returns (ok: bool)
      requires Loaded() && PrintsSame(conv, show, schema.columns, row)
      modifies this`stored, this`secondary
      ensures Loaded()
      ensures var key := KeyOf(show, schema.columns, row);
              && (ok <==> Acceptable(conv, schema, key, row) && Admits(schema, old(Rows()), key, row))
              && Rows() == if ok then old(Rows())[key := CanonRow(conv, schema.columns, row)] else old(Rows())
      ensures old(Valid()) ==> (Valid() <==> !ok || SettledIndexed(schema.columns, row))
      ensures ok && !SettledIndexed(schema.columns, row) ==> !Valid()
      ensures !ok ==> stored == old(stored) && secondary == old(secondary)
      ensures old(AllAcceptable(conv, schema, Rows())) ==> AllAcceptable(conv, schema, Rows())
    {
      hide Exact, RowsOf, AllDecode, Keyed, Admits, AdmitsPrinted, WellTyped, HasColumns, SettledIndexed, CanonRow;
      var key := KeyOf(show, schema.columns, row);
      AdmitsAsPrinted(show, schema, Rows(), key, row);
      ok := Insert(key, row);
      if ok { CanonAcceptable(conv, schema, key, row); }
    }

    method Delete(key: Key)
      requires Ready()
      modifies this`stored, this`secondary
      ensures Ready() && Rows() == old(Rows()) - {key}
      ensures old(Valid()) ==> Valid()
      ensures old(Loaded()) ==> Loaded()
    {
      hide Decoded, RowsOf, AllDecode, Exact, Dropped, HasColumns;
      var found := Get(key);
      if found.None? {
        assert old(Rows()) - {key} == old(Rows());
        return;
      }
      RowsDrop(schema.columns, stored, key);
      stored := stored - {key};
      UnindexRow(key, found.value);
      if old(Valid()) { DroppedExact(schema.columns, old(secondary), secondary, old(Rows()), key); }
    }

    /** The rows whose keys are in the bucket of the value; through an exact index, the rows with that value. */
    method Find(column: Name, value: Value) returns (found: seq<Row>, ghost ks: seq<Key>)
      requires Ready()
      ensures Lists(found, ks, Rows()) && Enumerates(ks, BucketOf(secondary, column, value) * Rows().Keys)
      ensures IsListing(found, Rows(), BucketOf(secondary, column, value) * Rows().Keys)
      ensures Valid() && column in secondary ==> BucketOf(secondary, column, value) * Rows().Keys == WithValue(Rows(), column, value)
    {
      hide RowsOf, Decoded, IndexKey, ValidSchema, HasColumns, AllDecode, Exact;
      if Valid() && column in secondary { BucketIs(secondary, schema.columns, Rows(), column, value); }
      found, ks := [], [];
      if column in secondary && IndexKey(value) in secondary[column] {
        var bucket := secondary[column][IndexKey(value)];
        var todo := bucket;
        while todo != {}
          invariant todo <= bucket
          invariant Enumerates(ks, (bucket - todo) * Rows().Keys) && Lists(found, ks, Rows())
        {
          var k :| k in todo;
          var row := Get(k);
          ghost var before, after := (bucket - todo) * Rows().Keys, (bucket - (todo - {k})) * Rows().Keys;
          if row.Some? {
            assert after == before + {k};
            EnumeratesPush(ks, before, k);
            found, ks := found + [row.value], ks + [k];
          } else {
            assert after == before;
          }
          todo := todo - {k};
        }
        assert bucket - todo == bucket;
      }
    }

    /** Delete the rows that match. */
    method DeleteWhere(where: Row -> bool) returns (n: nat)
      requires Loaded()
      modifies this`stored, this`secondary
      ensures Loaded() && Rows() == old(Rows()) - Hits(old(Rows()), where)
      ensures n == |Hits(old(Rows()), where)|
      ensures old(Valid()) ==> Valid()
    {
      hide Exact, RowsOf, AllDecode, Hits, HitsUpTo, Enumerates, Keyed, ValidSchema, KeyOf, IsListing, HasColumns;
      ghost var rows := Rows();
      var listed, ks := Scan();
      n := 0;
      ghost var gone: set<Key> := {};
      HitsNone(rows, where, ks);
      assert rows - gone == rows;
      for i := 0 to |listed|
        invariant Loaded() && HitsUpTo(rows, where, ks, i, gone) && Rows() == rows - gone && n == |gone|
        invariant old(Valid()) ==> Valid()
      {
        HitsNext(rows, where, ks, i, gone);
        ListedKey(show, schema.columns, rows, listed, ks, i);
        if where(listed[i]) {
          Delete(KeyOf(show, schema.columns, listed[i]));
          assert rows - gone - {ks[i]} == rows - (gone + {ks[i]});
          gone := gone + {ks[i]};
          n := n + 1;
        }
      }
      HitsAll(rows, where, ks, gone);
    }

    /** Put a row that was stored at first again with the changed columns. */
    method PutChanged(was: Row, changes: Row, ghost before: map<Key, bytes>, ghost key: Key) returns (ok: bool)
      requires Ready()
      requires AllDecode(schema.columns, before) && key in RowsOf(schema.columns, before) && RowsOf(schema.columns, before)[key] == was
      modifies this`stored, this`secondary
      ensures Ready()
      ensures Rows() == if ok then old(Rows())[KeyOf(show, schema.columns, was + changes) := CanonRow(conv, schema.columns, was + changes)]
                        else old(Rows())
      ensures old(Valid()) && (!ok || SettledIndexed(schema.columns, changes)) ==> Valid()
      ensures (if ok then !SettledIndexed(schema.columns, changes) else old(!Valid())) ==> !Valid()
      ensures old(Loaded()) && KeyKept(conv, show, schema.columns, changes) ==> Loaded()
      ensures old(AllAcceptable(conv, schema, Rows())) ==> AllAcceptable(conv, schema, Rows())
    {
      hide Exact, RowsOf, AllDecode, Keyed, Acceptable, AdmitsPrinted, HasColumns, SettledIndexed, KeyKept, CanonRow,
           KeyOf, PutKey;
      var cs, row := schema.columns, was + changes;
      ChangedRow(conv, show, cs, before, RowsOf(cs, before), key, changes);
      ok := Insert(KeyOf(show, cs, row), row);
      if ok {
        CanonAcceptable(conv, schema, KeyOf(show, cs, row), row);
      }
    }

    /** Put every matching row again with the changed columns; stop at the first that is refused. */
    method Update(where: Row -> bool, changes: Row) returns (n: nat, ok: bool, ghost ks: seq<Key>)
      requires Ready()
      modifies this`stored, this`secondary
      ensures Ready()
      ensures forall i :: 0 <= i < |ks| ==> ks[i] in old(Rows())
      ensures Rows() == Updates(conv, show, schema.columns, old(Rows()), ks, where, changes)
      ensures ok ==> Enumerates(ks, old(Rows()).Keys) && n == |Hits(old(Rows()), where)|
      ensures old(Valid()) ==> (Valid() <==> n == 0 || SettledIndexed(schema.columns, changes))
      ensures old(Loaded()) && KeyKept(conv, show, schema.columns, changes) ==> Loaded()
      ensures old(AllAcceptable(conv, schema, Rows())) ==> AllAcceptable(conv, schema, Rows())
    {
      hide Table.Valid, Table.Loaded, Exact, RowsOf, AllDecode, Hits, Counted, Enumerates, Keyed, ValidSchema, KeyOf,
           Acceptable, Admits, AllAcceptable, Updates, IsListing, HasColumns, SettledIndexed, KeyKept, CanonRow;
      ghost var rows := Rows();
      var listed, all := Scan();
      n := 0;
      CountNone(rows, where, all);
      UpdatesNone(conv, show, schema.columns, rows, where, changes);
      ks := all[..0];
      for i := 0 to |listed|
        invariant Ready() && ks == all[..i] && Counted(rows, where, all, i, n)
        invariant Rows() == Updates(conv, show, schema.columns, rows, ks, where, changes)
        invariant old(Valid()) && (n == 0 || SettledIndexed(schema.columns, changes)) ==> Valid()
        invariant n > 0 && !SettledIndexed(schema.columns, changes) ==> !Valid()
        invariant old(Loaded()) && KeyKept(conv, show, schema.columns, changes) ==> Loaded()
        invariant old(AllAcceptable(conv, schema, Rows())) ==> AllAcceptable(conv, schema, Rows())
      {
        CountNext(rows, where, all, i, n);
        UpdatesNext(conv, show, schema.columns, rows, all, i, where, changes);
        if !where(listed[i]) {
          ks := all[..i + 1];
          continue;
        }
        ok := PutChanged(listed[i], changes, old(stored), all[i]);
        if !ok { return; }
        n := n + 1;
        ks := all[..i + 1];
      }
      CountAll(rows, where, all, n);
      assert all[..|all|] == all;
      ok := true;
    }
  }

  lemma {:induction false} EnumeratesPush(kept: seq<Key>, keys: set<Key>, k: Key)
    requires Enumerates(kept, keys) && k !in keys
    ensures Enumerates(kept + [k], keys + {k})
  {
    var more := kept + [k];
    assert forall x :: x in more <==> x in kept || x == k;
  }

  /** How many of the first `i` keys match. */
  ghost predicate Counted(rows: map<Key, Row>, where: Row -> bool, ks: seq<Key>, i: nat, n: nat)
    requires i <= |ks|
  {
    exists hit: set<Key> :: HitsUpTo(rows, where, ks, i, hit) && |hit| == n
  }

  lemma CountNone(rows: map<Key, Row>, where: Row -> bool, ks: seq<Key>)
    ensures Counted(rows, where, ks, 0, 0)
  {
    hide HitsUpTo;
    HitsNone(rows, where, ks);
    assert HitsUpTo(rows, where, ks, 0, {});
  }

  lemma {:induction false} CountNext(rows: map<Key, Row>, where: Row -> bool, ks: seq<Key>, i: nat, n: nat)
    requires i < |ks| && ks[i] in rows && Enumerates(ks, rows.Keys) && Counted(rows, where, ks, i, n)
    ensures Counted(rows, where, ks, i + 1, if where(rows[ks[i]]) then n + 1 else n)
  {
    hide HitsUpTo;
    var hit: set<Key> :| HitsUpTo(rows, where, ks, i, hit) && |hit| == n;
    HitsNext(rows, where, ks, i, hit);
  }

  lemma {:induction false} CountAll(rows: map<Key, Row>, where: Row -> bool, ks: seq<Key>, n: nat)
    requires Enumerates(ks, rows.Keys) && Counted(rows, where, ks, |ks|, n)
    ensures n == |Hits(rows, where)|
  {
    hide HitsUpTo, Hits;
    var hit: set<Key> :| HitsUpTo(rows, where, ks, |ks|, hit) && |hit| == n;
    HitsAll(rows, where, ks, hit);
  }

  /** The rows after the matching rows among `ks` were put again with the changed columns. */
  ghost function Updates(conv: Conversion, show: Printer, cs: seq<Column>, rows: map<Key, Row>, ks: seq<Key>,
                         where: Row -> bool, changes: Row): map<Key, Row>
    requires cs != [] && forall i :: 0 <= i < |ks| ==> ks[i] in rows
  {
    if ks == [] then rows
    else
      var n := |ks| - 1;
      var before := Updates(conv, show, cs, rows, ks[..n], where, changes);
      var row := rows[ks[n]] + changes;
      if where(rows[ks[n]]) then before[KeyOf(show, cs, row) := CanonRow(conv, cs, row)] else before
  }

  /** Every matching row was put again with the changed columns, in some order. */
  ghost predicate UpdatedAll(conv: Conversion, show: Printer, cs: seq<Column>, rows: map<Key, Row>,
                             where: Row -> bool, changes: Row, after: map<Key, Row>)
    requires cs != []
  {
    exists ks :: Enumerates(ks, rows.Keys) && (forall i :: 0 <= i < |ks| ==> ks[i] in rows) &&
      after == Updates(conv, show, cs, rows, ks, where, changes)
  }

  lemma UpdatesNone(conv: Conversion, show: Printer, cs: seq<Column>, rows: map<Key, Row>, where: Row -> bool, changes: Row)
    requires cs != []
    ensures Updates(conv, show, cs, rows, [], where, changes) == rows
  {
  }

  lemma {:induction false} UpdatesNext(conv: Conversion, show: Printer, cs: seq<Column>, rows: map<Key, Row>, ks: seq<Key>, i: nat,
                                       where: Row -> bool, changes: Row)
    requires cs != [] && i < |ks| && forall j :: 0 <= j < |ks| ==> ks[j] in rows
    ensures var before := Updates(conv, show, cs, rows, ks[..i], where, changes);
            var row := rows[ks[i]] + changes;
            Updates(conv, show, cs, rows, ks[..i + 1], where, changes)
              == if where(rows[ks[i]]) then before[KeyOf(show, cs, row) := CanonRow(conv, cs, row)] else before
  {
    assert ks[..i + 1][..i] == ks[..i];
  }

  /** A stored row with changes prints its key, and has settled values exactly if the changes do. */
  lemma {:induction false} ChangedRow(conv: Conversion, show: Printer, cs: seq<Column>, stored: map<Key, bytes>, rows: map<Key, Row>, key: Key, changes: Row)
    requires ValidSchema(cs) && cs != [] && AllDecode(cs, stored) && rows == RowsOf(cs, stored) && key in rows
    ensures KeyKept(conv, show, cs, changes) ==> PrintsSame(conv, show, cs, rows[key] + changes)
    ensures SettledIndexed(cs, changes) <==> SettledIndexed(cs, rows[key] + changes)
  {
    hide Decoded, Settled, Canon;
    DecodedCanonical(cs, stored[key]);
    CanonicalPrints(conv, show, cs, rows[key]);
    var row := rows[key] + changes;
    assert forall c :: Field(row, c) == if c in changes then Field(changes, c) else Field(rows[key], c);
    NullSettled();
  }

  lemma {:induction false} SameKey(show: Printer, cs: seq<Column>, rows: map<Key, Row>, key: Key, changes: Row)
    requires cs != [] && Keyed(show, cs, rows) && cs[0].name !in changes && key in rows
    ensures KeyOf(show, cs, rows[key] + changes) == key
  {
    assert Field(rows[key] + changes, cs[0].name) == Field(rows[key], cs[0].name);
  }

  /** An update that leaves the first column alone changes the matching rows in place and nothing else. */
  lemma {:induction false} UpdatesInPlace(conv: Conversion, show: Printer, cs: seq<Column>, rows: map<Key, Row>, ks: seq<Key>,
                                          where: Row -> bool, changes: Row)
    requires cs != [] && Keyed(show, cs, rows) && cs[0].name !in changes
    requires forall i :: 0 <= i < |ks| ==> ks[i] in rows
    ensures var r := Updates(conv, show, cs, rows, ks, where, changes);
            && r.Keys == rows.Keys
            && forall k :: k in rows ==> r[k] == if k in ks && where(rows[k]) then CanonRow(conv, cs, rows[k] + changes) else rows[k]
  {
    hide Keyed, KeyOf, CanonRow;
    if ks != [] {
      var n := |ks| - 1;
      UpdatesInPlace(conv, show, cs, rows, ks[..n], where, changes);
      SameKey(show, cs, rows, ks[n], changes);
      assert ks == ks[..n] + [ks[n]];
    }
  }

  lemma {:induction false} ListedKey(show: Printer, cs: seq<Column>, rows: map<Key, Row>, listed: seq<Row>, ks: seq<Key>, i: nat)
    requires cs != [] && Keyed(show, cs, rows) && Lists(listed, ks, rows) && i < |ks|
    ensures KeyOf(show, cs, listed[i]) == ks[i]
  {
  }

  ghost function WithValue(rows: map<Key, Row>, column: Name, value: Value): set<Key>
  {
    set k | k in rows && IndexField(rows[k], column) == IndexKey(value)
  }

  lemma {:induction false} BucketIs(index: Index, cs: seq<Column>, rows: map<Key, Row>, column: Name, value: Value)
    requires Exact(index, cs, rows) && column in index
    ensures BucketOf(index, column, value) * rows.Keys == WithValue(rows, column, value)
  {
    hide IndexKey;
    var i :| 1 <= i < |cs| && cs[i].name == column;
    assert forall k :: InBucket(index[column], IndexKey(value), k) <==> k in BucketOf(index, column, value);
  }

  /** The keys of the rows that match. */
  ghost function Hits(rows: map<Key, Row>, where: Row -> bool): set<Key>
  {
    set k | k in rows && where(rows[k])
  }

  ghost predicate HitsUpTo(rows: map<Key, Row>, where: Row -> bool, ks: seq<Key>, i: nat, gone: set<Key>)
  {
    i <= |ks| && forall k :: k in gone <==> k in ks[..i] && k in rows && where(rows[k])
  }

  lemma {:induction false} HitsNone(rows: map<Key, Row>, where: Row -> bool, ks: seq<Key>)
    ensures HitsUpTo(rows, where, ks, 0, {})
  {
  }

  lemma {:induction false} HitsNext(rows: map<Key, Row>, where: Row -> bool, ks: seq<Key>, i: nat, gone: set<Key>)
    requires Enumerates(ks, rows.Keys) && i < |ks| && HitsUpTo(rows, where, ks, i, gone)
    ensures ks[i] in rows && ks[i] !in gone
    ensures HitsUpTo(rows, where, ks, i + 1, if where(rows[ks[i]]) then gone + {ks[i]} else gone)
  {
    assert ks[..i + 1] == ks[..i] + [ks[i]];
    assert ks[i] !in ks[..i];
  }

  lemma {:induction false} HitsAll(rows: map<Key, Row>, where: Row -> bool, ks: seq<Key>, gone: set<Key>)
    requires Enumerates(ks, rows.Keys) && HitsUpTo(rows, where, ks, |ks|, gone)
    ensures gone == Hits(rows, where)
  {
    assert ks[..|ks|] == ks;
  }

  lemma {:induction false} AfterPut(conv: Conversion, show: Printer, schema: Schema, stored: map<Key, bytes>, key: Key, data: bytes, row: Row)
    requires ValidSchema(schema.columns) && schema.columns != [] && AllDecode(schema.columns, stored)
    requires IsEncoding(conv, schema, row, data) && |key| + |data| <= RECORD_SPACE
    ensures Storable(schema.columns, row) && AllDecode(schema.columns, stored[key := data])
    ensures var before, rows := RowsOf(schema.columns, stored), RowsOf(schema.columns, stored[key := data]);
            && rows == before[key := CanonRow(conv, schema.columns, row)]
            && (Keyed(show, schema.columns, before) ==>
                  (Keyed(show, schema.columns, rows) <==> key == PutKey(conv, show, schema.columns, row)))
  {
    hide Decoded, RowsOf, AllDecode, Marks, Fields, Canon, Field, Fits, CanonRow;
    var cs := schema.columns;
    StoredRow(conv, schema, row, data);
    RowsPut(cs, stored, key, data, CanonRow(conv, cs, row));
    CanonFields(conv, cs, row);
    var rows := RowsOf(cs, stored[key := data]);
    assert key in rows && KeyOf(show, cs, rows[key]) == PutKey(conv, show, cs, row);
  }

  /** The rows listed under the first `i` keys. */
  ghost function UpTo(rows: map<Key, Row>, ks: seq<Key>, i: nat): map<Key, Row>
    requires i <= |ks|
  {
    map k | k in ks[..i] && k in rows :: rows[k]
  }

  lemma {:induction false} UpToNext(rows: map<Key, Row>, ks: seq<Key>, i: nat)
    requires Enumerates(ks, rows.Keys) && i < |ks|
    ensures ks[i] in rows && ks[i] !in UpTo(rows, ks, i)
    ensures UpTo(rows, ks, i + 1) == UpTo(rows, ks, i)[ks[i] := rows[ks[i]]]
  {
    assert ks[..i + 1] == ks[..i] + [ks[i]];
    assert ks[i] !in ks[..i];
  }

  lemma {:induction false} UpToAll(rows: map<Key, Row>, ks: seq<Key>)
    requires Enumerates(ks, rows.Keys)
    ensures UpTo(rows, ks, 0) == map[] && UpTo(rows, ks, |ks|) == rows
  {
    assert ks[..|ks|] == ks;
  }

  lemma {:induction false} NothingIndexed(index: Index, cs: seq<Column>)
    requires cs != [] && index.Keys == Names(cs[1..]) && forall c :: c in index ==> index[c] == map[]
    ensures Exact(index, cs, map[]) && HasColumns(index, cs)
  {
    hide Names;
    forall c | c in index ensures exists i :: 1 <= i < |cs| && cs[i].name == c {
      NamesAt(cs[1..], c);
      var j :| 0 <= j < |cs| - 1 && cs[1..][j].name == c;
      assert cs[j + 1].name == c;
    }
    forall i | 1 <= i < |cs| ensures cs[i].name in index {
      NamesAt(cs[1..], cs[i].name);
      assert cs[1..][i - 1].name == cs[i].name;
    }
  }

  /** Whether every stored value decodes. */
  method CheckRows(cs: seq<Column>, stored: map<Key, bytes>) returns (ok: bool)
    requires ValidSchema(cs)
    ensures ok <==> AllDecode(cs, stored)
  {
    hide Decoded;
    var todo := stored.Keys;
    while todo != {}
      invariant forall k :: k in stored && k !in todo ==> Decoded(cs, stored[k]).Some?
    {
      var k :| k in todo;
      if k in stored {
        var row := Decode(cs, stored[k]);
        if row.None? { return false; }
      }
      todo := todo - {k};
    }
    ok := true;
  }

  /** Open a table over what the store holds and index its rows. */
  method NewTable(schema: Schema, conv: Conversion, show: Printer, stored: map<Key, bytes>) returns (r: Option<Table>)
    ensures r.Some? <==> ValidSchema(schema.columns) && schema.columns != [] && AllDecode(schema.columns, stored)
    ensures r.Some? ==> fresh(r.value) && r.value.Ready() && r.value.schema == schema && r.value.stored == stored
    ensures r.Some? && Keyed(show, schema.columns, r.value.Rows()) ==> r.value.Loaded() && r.value.Valid()
  {
    hide Exact, Decoded, RowsOf, AllDecode, Keyed, KeyOf, Names, Enumerates, Added, IsListing, HasColumns;
    var cs := schema.columns;
    var ok := Validate(cs);
    if !ok { return None; }
    if cs == [] { return None; }
    ok := CheckRows(cs, stored);
    if !ok { return None; }
    var index := EmptyIndex(cs[1..]);
    NothingIndexed(index, cs);
    var t := new Table(schema, conv, show, stored, index);
    ghost var rows := t.Rows();
    ghost var keyed := Keyed(show, cs, rows);
    var listed, ks := t.Scan();
    UpToAll(rows, ks);
    for i := 0 to |listed|
      invariant fresh(t) && t.Ready() && t.Rows() == rows && t.stored == stored
      invariant keyed ==> Exact(t.secondary, cs, UpTo(rows, ks, i))
    {
      UpToNext(rows, ks, i);
      ghost var before := t.secondary;
      t.IndexRow(KeyOf(show, cs, listed[i]), listed[i]);
      if keyed {
        ListedKey(show, cs, rows, listed, ks, i);
        AddedExact(cs, before, t.secondary, UpTo(rows, ks, i), ks[i], listed[i], listed[i]);
      }
    }
    return Some(t);
  }

  method EmptyIndex(cs: seq<Column>) returns (index: Index)
    ensures index.Keys == Names(cs) && forall c :: c in index ==> index[c] == map[]
  {
    index := map[];
    for i := 0 to |cs|
      invariant index.Keys == Names(cs[..i]) && forall c :: c in index ==> index[c] == map[]
    {
      index := index[cs[i].name := map[]];
      assert cs[..i + 1][..i] == cs[..i];
    }
    assert cs[..|cs|] == cs;
  }

  // ---------------------------------------------- values that read back as others

  /** An empty byte value is indexed as empty, reads back as nil, and so leaves its key behind when it is deleted. */
  lemma {:induction false} EmptyBytesLeaveAKey(c: Name, key: Key)
    ensures var m := AddKey(map[], Blob([]), key);
            && Canon(_ => 0, BytesType, Blob([])) == NilBlob
            && !ColumnExact(m, map[key := map[c := NilBlob]], c)
            && InBucket(DropKey(m, NilBlob, key), Blob([]), key)
  {
    var m := AddKey(map[], Blob([]), key);
    assert InBucket(m, Blob([]), key);
  }

  /** An int in a float column is indexed as an int, reads back as a float, and is not found under either key. */
  lemma {:induction false} IntAsFloatIsMisindexed(conv: Conversion, c: Name, key: Key, n: i64)
    ensures var m := AddKey(map[], Int(n), key);
            var row: Row := map[c := Float(conv(n))];
            && Canon(conv, FloatType, Int(n)) == Float(conv(n))
            && !ColumnExact(m, map[key := row], c)
            && BucketOf(map[c := m], c, Float(conv(n))) == {} && WithValue(map[key := row], c, Float(conv(n))) == {key}
  {
    var m := AddKey(map[], Int(n), key);
    assert InBucket(m, Int(n), key);
  }

  /** A unique column accepts a second empty byte value: it is compared as empty with one that reads back as nil. */
  lemma {:induction false} EmptyBytesTwice(conv: Conversion, id: Name, c: Name, k1: Key, k2: Key)
    requires id != c && k1 != k2
    ensures var schema := Schema([Column(id, StringType), Column(c, BytesType)], {}, {c});
            var first: Row := map[id := Str(k1), c := NilBlob];
            var second: Row := map[id := Str(k2), c := Blob([])];
            var rows := map[k1 := first];
            && Consistent(schema, rows) && Admits(schema, rows, k2, second)
            && CanonRow(conv, schema.columns, second) == map[id := Str(k2), c := NilBlob]
            && !Consistent(schema, rows[k2 := CanonRow(conv, schema.columns, second)])
  {
    var cs := [Column(id, StringType), Column(c, BytesType)];
    var schema := Schema(cs, {}, {c});
    var first: Row := map[id := Str(k1), c := NilBlob];
    var second: Row := map[id := Str(k2), c := Blob([])];
    var read: Row := map[id := Str(k2), c := NilBlob];
    assert cs[..1] == [Column(id, StringType)] && cs[..1][..0] == [];
    assert CanonRow(conv, cs[..1], second) == map[id := Str(k2)];
    assert CanonRow(conv, cs, second) == read;
    assert Clash(schema, read, first, 1);
    assert Clashes(schema, read, first);
    var rows := map[k1 := first][k2 := read];
    assert rows[k1] == first && rows[k2] == read;
  }
}
