/** Putting a table back to a remembered image: ROLLBACK, and the failure of a multi-statement request. */
module Restore {
  import opened Common
  import opened Bytes
  import opened Codec
  import opened Table
  import S = StoreSpec
  import T = Transactions

  /** The image meets the table's own constraints. */
  ghost predicate Restorable(conv: Conversion, schema: Schema, rows: map<Key, Row>)
  {
    Consistent(schema, rows) && AllAcceptable(conv, schema, rows)
  }

  /** Part of a restorable image is restorable. */
  lemma {:induction false} RestorablePart(conv: Conversion, schema: Schema, rows: map<Key, Row>, ks: seq<Key>, i: nat)
    requires Restorable(conv, schema, rows) && i <= |ks|
    ensures Restorable(conv, schema, UpTo(rows, ks, i))
  {
    hide Clashes, Acceptable;
  }

  lemma {:induction false} RestorableNext(conv: Conversion, schema: Schema, rows: map<Key, Row>, ks: seq<Key>, i: nat)
    requires Enumerates(ks, rows.Keys) && i < |ks| && Restorable(conv, schema, UpTo(rows, ks, i)) && ks[i] in rows
    ensures Restorable(conv, schema, UpTo(rows, ks, i + 1)) <==>
            Acceptable(conv, schema, ks[i], rows[ks[i]]) && Admits(schema, UpTo(rows, ks, i), ks[i], rows[ks[i]])
  {
    hide Consistent, Admits, Acceptable, UpTo;
    UpToNext(rows, ks, i);
    AdmittedConsistent(schema, UpTo(rows, ks, i), ks[i], rows[ks[i]]);
    assert ks[i] in UpTo(rows, ks, i + 1);
  }

  ghost predicate AllCanonical(cs: seq<Column>, rows: map<Key, Row>)
  {
    forall k :: k in rows ==> Canonical(cs, rows[k])
  }

  /** The image lists the rows of a table of this schema. */
  ghost predicate ImageOf(t: Table, image: seq<Row>, ks: seq<Key>, rows: map<Key, Row>)
  {
    && t.schema.columns != []
    && Lists(image, ks, rows) && Enumerates(ks, rows.Keys)
    && Keyed(t.show, t.schema.columns, rows) && AllCanonical(t.schema.columns, rows)
  }

  /** What a scan returns is an image. */
  lemma {:induction false} ScanIsImage(t: Table, image: seq<Row>, ks: seq<Key>)
    requires t.Loaded() && Enumerates(ks, t.Rows().Keys) && Lists(image, ks, t.Rows())
    ensures ImageOf(t, image, ks, t.Rows())
  {
    hide Decoded, Canonical;
    forall k | k in t.Rows() ensures Canonical(t.schema.columns, t.Rows()[k]) {
      DecodedCanonical(t.schema.columns, t.stored[k]);
    }
  }

  /** Put the next row of an image. */
  method PutBack(t: Table, image: seq<Row>, ghost ks: seq<Key>, ghost rows: map<Key, Row>, i: nat) returns (ok: bool)
    requires t.Loaded() && ImageOf(t, image, ks, rows) && i < |image|
    modifies t`stored, t`secondary
    ensures t.Loaded() && ks[i] in rows
    ensures ok <==> Acceptable(t.conv, t.schema, ks[i], rows[ks[i]]) && Admits(t.schema, old(t.Rows()), ks[i], rows[ks[i]])
    ensures t.Rows() == if ok then old(t.Rows())[ks[i] := rows[ks[i]]] else old(t.Rows())
    ensures old(t.Valid()) ==> t.Valid()
  {
    hide Exact, RowsOf, AllDecode, Enumerates, Keyed, KeyOf, WellTyped, Admits, AllAcceptable, HasColumns, Canonical,
         CanonRow, SettledIndexed, PrintsSame;
    ListedKey(t.show, t.schema.columns, rows, image, ks, i);
    CanonicalPrints(t.conv, t.show, t.schema.columns, image[i]);
    ok := t.InsertOwn(image[i]);
    if ok { CanonIsRow(t.conv, t.schema, image[i]); }
  }

  /** ROLLBACK for one table: delete everything, then put the rows of the image, stopping if one is refused. */
  method Restore(t: Table, image: seq<Row>, ghost ks: seq<Key>, ghost rows: map<Key, Row>) returns (ok: bool)
    requires t.Loaded() && ImageOf(t, image, ks, rows)
    modifies t`stored, t`secondary
    ensures t.Loaded() && (old(t.Valid()) ==> t.Valid())
    ensures ok <==> Restorable(t.conv, t.schema, rows)
    ensures ok ==> t.Rows() == rows
  {
    hide Exact, RowsOf, AllDecode, Enumerates, Keyed, Acceptable, Admits, Restorable, UpTo, Hits, HasColumns,
         AllCanonical, Lists;
    var n := t.DeleteWhere(_ => true);
    Emptied(old(t.Rows()));
    UpToAll(rows, ks);
    NothingRestored(t.conv, t.schema);
    ImageSize(t, image, ks, rows);
    for i := 0 to |image|
      invariant t.Loaded() && (old(t.Valid()) ==> t.Valid())
      invariant t.Rows() == UpTo(rows, ks, i) && Restorable(t.conv, t.schema, UpTo(rows, ks, i))
    {
      UpToNext(rows, ks, i);
      RestorableNext(t.conv, t.schema, rows, ks, i);
      ok := PutBack(t, image, ks, rows, i);
      if !ok {
        if Restorable(t.conv, t.schema, rows) { RestorablePart(t.conv, t.schema, rows, ks, i + 1); }
        return;
      }
    }
    ok := true;
  }

  lemma ImageSize(t: Table, image: seq<Row>, ks: seq<Key>, rows: map<Key, Row>)
    requires ImageOf(t, image, ks, rows)
    ensures |image| == |ks|
  {
  }

  lemma Emptied(rows: map<Key, Row>)
    ensures rows - Hits(rows, _ => true) == map[]
  {
  }

  lemma NothingRestored(conv: Conversion, schema: Schema)
    ensures Restorable(conv, schema, map[])
  {
  }

  /** Some row of the first `i` was left out. */
  ghost predicate Missing(ks: seq<Key>, i: nat, now: map<Key, Row>)
    requires i <= |ks|
  {
    exists j :: 0 <= j < i && ks[j] !in now
  }

  /** After a failed request, for one table: the same, but going on past a row that is refused. */
  method Reinsert(t: Table, image: seq<Row>, ghost ks: seq<Key>, ghost rows: map<Key, Row>)
    requires t.Loaded() && ImageOf(t, image, ks, rows)
    modifies t`stored, t`secondary
    ensures t.Loaded() && (old(t.Valid()) ==> t.Valid())
    ensures t.Rows() == rows <==> Restorable(t.conv, t.schema, rows)
  {
    hide Exact, RowsOf, AllDecode, Keyed, Acceptable, Admits, Restorable, UpTo, Hits, HasColumns, AllCanonical;
    var n := t.DeleteWhere(_ => true);
    Emptied(old(t.Rows()));
    UpToAll(rows, ks);
    NothingRestored(t.conv, t.schema);
    ghost var whole := true;
    for i := 0 to |image|
      invariant t.Loaded() && (old(t.Valid()) ==> t.Valid())
      invariant whole ==> t.Rows() == UpTo(rows, ks, i) && Restorable(t.conv, t.schema, UpTo(rows, ks, i))
      invariant !whole ==> !Restorable(t.conv, t.schema, rows) && Missing(ks, i, t.Rows())
    {
      UpToNext(rows, ks, i);
      ghost var before := t.Rows();
      if whole { RestorableNext(t.conv, t.schema, rows, ks, i); }
      var ok := PutBack(t, image, ks, rows, i);
      if whole && !ok {
        if Restorable(t.conv, t.schema, rows) { RestorablePart(t.conv, t.schema, rows, ks, i + 1); }
        whole := false;
        assert ks[i] !in t.Rows();
      } else if !whole {
        ghost var j :| 0 <= j < i && ks[j] !in before;
        assert ks[j] !in t.Rows();
      }
    }
    if !whole {
      ghost var j :| 0 <= j < |ks| && ks[j] !in t.Rows();
    }
  }

  ghost predicate Apart(tables: seq<Table>)
  {
    forall i, j :: 0 <= i < j < |tables| ==> tables[i] != tables[j]
  }

  /**
   * A failed request: every table goes back to its image.  Each table is
   * restored exactly when its image meets its own constraints.
   */
  method RestoreAll(tables: seq<Table>, images: seq<seq<Row>>, ghost kss: seq<seq<Key>>, ghost befores: seq<map<Key, Row>>)
    requires |tables| == |images| == |kss| == |befores|
    requires Apart(tables)
    requires forall i :: 0 <= i < |tables| ==> tables[i].Loaded() && ImageOf(tables[i], images[i], kss[i], befores[i])
    modifies tables
    ensures forall i :: 0 <= i < |tables| ==>
      && tables[i].Loaded() && (old(tables[i].Valid()) ==> tables[i].Valid())
      && (tables[i].Rows() == befores[i] <==> Restorable(tables[i].conv, tables[i].schema, befores[i]))
  {
    hide Exact, RowsOf, AllDecode, Enumerates, Keyed, ValidSchema, AllCanonical, Restorable, Lists, HasColumns;
    for i := 0 to |tables|
      invariant forall k :: 0 <= k < |tables| ==> tables[k].Loaded() && (old(tables[k].Valid()) ==> tables[k].Valid())
      invariant forall k :: i <= k < |tables| ==> tables[k].stored == old(tables[k].stored) && tables[k].secondary == old(tables[k].secondary)
      invariant forall k :: 0 <= k < i ==>
        (tables[k].Rows() == befores[k] <==> Restorable(tables[k].conv, tables[k].schema, befores[k]))
    {
      Reinsert(tables[i], images[i], kss[i], befores[i]);
    }
  }

  // ------------------------------------------------- a request of statements

  /** A statement outside a transaction, with its values converted to the column types. */
  datatype Statement =
    | Inserting(table: nat, row: Row)
    | Updating(table: nat, where: Row -> bool, changes: Row)
    | Deleting(table: nat, where: Row -> bool)
    | Selecting(table: nat)
    | Refused  // fails before it touches a table

  ghost predicate AllLoaded(tables: seq<Table>)
    reads tables
  {
    forall i :: 0 <= i < |tables| ==> tables[i].Loaded()
  }

  /** The new value of the first column prints the same key once it is stored. */
  predicate KeyPrints(tables: seq<Table>, s: Statement)
  {
    match s
    case Inserting(t, row) => t < |tables| && tables[t].schema.columns != [] ==>
      PrintsSame(tables[t].conv, tables[t].show, tables[t].schema.columns, row)
    case Updating(t, _, changes) => t < |tables| && tables[t].schema.columns != [] ==>
      KeyKept(tables[t].conv, tables[t].show, tables[t].schema.columns, changes)
    case _ => true
  }

  /** The new values of the indexed columns read back as themselves. */
  predicate KeepsIndex(tables: seq<Table>, s: Statement)
  {
    match s
    case Inserting(t, row) => t < |tables| ==> SettledIndexed(tables[t].schema.columns, row)
    case Updating(t, _, changes) => t < |tables| ==> SettledIndexed(tables[t].schema.columns, changes)
    case _ => true
  }

  /** Run one statement; it touches its own table only. */
  method RunStatement(tables: seq<Table>, s: Statement) returns (ok: bool)
    requires Apart(tables) && AllLoaded(tables) && KeyPrints(tables, s)
    modifies tables
    ensures AllLoaded(tables)
    ensures forall i :: 0 <= i < |tables| ==>
      && (old(tables[i].Valid()) && KeepsIndex(tables, s) ==> tables[i].Valid())
      && (old(tables[i].Loaded() && AllAcceptable(tables[i].conv, tables[i].schema, tables[i].Rows())) ==>
            AllAcceptable(tables[i].conv, tables[i].schema, tables[i].Rows()))
    ensures s.Refused? || s.table >= |tables| ==> !ok
    ensures forall i :: 0 <= i < |tables| && (s.Refused? || s.Selecting? || i != s.table) ==>
      tables[i].stored == old(tables[i].stored) && tables[i].secondary == old(tables[i].secondary)
    ensures s.Deleting? && ok ==>
      var t := tables[s.table];
      old(t.Loaded()) && t.Rows() == old(t.Rows()) - Hits(old(t.Rows()), s.where)
    ensures s.Updating? && ok ==>
      var t := tables[s.table];
      old(t.Loaded()) && UpdatedAll(t.conv, t.show, t.schema.columns, old(t.Rows()), s.where, s.changes, t.Rows())
    ensures s.Inserting? && ok ==>
      var t := tables[s.table];
      old(t.Loaded()) &&
      t.Rows() == old(t.Rows())[KeyOf(t.show, t.schema.columns, s.row) := CanonRow(t.conv, t.schema.columns, s.row)]
  {
    hide AllDecode, Exact, RowsOf, Hits, Updates, Enumerates, HasColumns, Keyed, Acceptable, SettledIndexed,
         PrintsSame, KeyKept, ValidSchema;
    match s
    case Refused => return false;
    case Selecting(t) => return t < |tables|;
    case Inserting(t, row) =>
      if t >= |tables| { return false; }
      ok := tables[t].InsertOwn(row);
    case Updating(t, where, changes) =>
      if t >= |tables| { return false; }
      var _, done, _ := tables[t].Update(where, changes);
      ok := done;
    case Deleting(t, where) =>
      if t >= |tables| { return false; }
      var _ := tables[t].DeleteWhere(where);
      ok := true;
  }

  /** Images of all tables. */
  method TakeImages(tables: seq<Table>) returns (images: seq<seq<Row>>, ghost kss: seq<seq<Key>>, ghost now: seq<map<Key, Row>>)
    requires AllLoaded(tables)
    ensures |images| == |kss| == |now| == |tables|
    ensures forall i :: 0 <= i < |tables| ==>
      tables[i].Loaded() && now[i] == tables[i].Rows() && ImageOf(tables[i], images[i], kss[i], now[i])
  {
    hide RowsOf, AllDecode, ImageOf, Enumerates, Lists, IsListing, ValidSchema, HasColumns, Keyed;
    images, kss, now := [], [], [];
    for i := 0 to |tables|
      invariant |images| == |kss| == |now| == i
      invariant forall k :: 0 <= k < i ==>
        tables[k].Loaded() && now[k] == tables[k].Rows() && ImageOf(tables[k], images[k], kss[k], now[k])
    {
      var listed, ks := tables[i].Scan();
      ScanIsImage(tables[i], listed, ks);
      images, kss, now := images + [listed], kss + [ks], now + [tables[i].Rows()];
    }
  }

  /**
   * A request of several statements outside a transaction: run them in order;
   * if one fails, a table has the rows it had before exactly when those rows
   * met its own constraints.
   */
  method ExecuteAll(tables: seq<Table>, statements: seq<Statement>) returns (ok: bool)
    requires Apart(tables) && AllLoaded(tables)
    requires forall i :: 0 <= i < |statements| ==> KeyPrints(tables, statements[i])
    modifies tables
    ensures forall i :: 0 <= i < |tables| ==>
      && old(tables[i].Loaded()) && tables[i].Loaded()
      && (!ok ==> (tables[i].Rows() == old(tables[i].Rows()) <==>
                   Restorable(tables[i].conv, tables[i].schema, old(tables[i].Rows()))))
      && (old(tables[i].Valid()) && (forall j :: 0 <= j < |statements| ==> KeepsIndex(tables, statements[j])) ==> tables[i].Valid())
  {
    hide Exact, RowsOf, AllDecode, ImageOf, Enumerates, Lists, IsListing, ValidSchema, KeyPrints, KeepsIndex, Keyed,
         HasColumns, Restorable, AllAcceptable, UpdatedAll, Hits, CanonRow;
    var images, kss, befores := TakeImages(tables);
    ghost var keeps := forall j :: 0 <= j < |statements| ==> KeepsIndex(tables, statements[j]);
    for i := 0 to |statements|
      invariant AllLoaded(tables)
      invariant forall k :: 0 <= k < |tables| && keeps && old(tables[k].Valid()) ==> tables[k].Valid()
    {
      ok := RunStatement(tables, statements[i]);
      if !ok {
        RestoreAll(tables, images, kss, befores);
        return;
      }
    }
    ok := true;
  }

  /** Two rows with a nil byte value in a unique column, both let in as empty: the image cannot be put back. */
  lemma {:induction false} EmptyBytesLost(conv: Conversion, id: Name, c: Name, k1: Key, k2: Key)
    requires id != c && k1 != k2
    ensures var schema := Schema([Column(id, StringType), Column(c, BytesType)], {}, {c});
            var rows: map<Key, Row> := map[k1 := map[id := Str(k1), c := NilBlob], k2 := map[id := Str(k2), c := NilBlob]];
            !Restorable(conv, schema, rows)
  {
    hide Consistent;
    EmptyBytesTwice(conv, id, c, k1, k2);
  }

  /** Two rows with one value in a unique column cannot be put back. */
  lemma {:induction false} ClashingImageRefused(conv: Conversion, schema: Schema, a: Row, b: Row, k1: Key, k2: Key, i: nat)
    requires k1 != k2 && i < |schema.columns| && Clash(schema, a, b, i)
    ensures !Restorable(conv, schema, map[k1 := a, k2 := b])
  {
    var rows := map[k1 := a, k2 := b];
    assert rows[k1] == a && rows[k2] == b;
    assert Clashes(schema, a, b);
  }

  /**
   * For instance two rows that clash, staged by one client: the commit goes
   * through, the rows read back, and the image of the table cannot be put back.
   */
  lemma {:induction false} CommitLeavesClash(conv: Conversion, schema: Schema, a: Row, b: Row, k1: Key, k2: Key, da: bytes, db: bytes, i: nat)
    returns (w0: T.World, w: T.World)
    requires ValidSchema(schema.columns) && k1 != k2 && i < |schema.columns| && Clash(schema, a, b, i)
    requires IsEncoding(conv, schema, a, da) && IsEncoding(conv, schema, b, db) && |da| <= RECORD_SPACE && |db| <= RECORD_SPACE
    ensures var t := Name("t");
            && T.Init(w0) && w0.tables == map[t := S.EMPTY]
            && T.Reaches(w0, [T.Begin(0), T.Stage(0, t, k1, T.Row(da, true)), T.Stage(0, t, k2, T.Row(db, true)), T.CommitDone(0)], w)
            && t in w.tables && AllDecode(schema.columns, w.tables[t].live)
            && RowsOf(schema.columns, w.tables[t].live) ==
               map[k1 := CanonRow(conv, schema.columns, a), k2 := CanonRow(conv, schema.columns, b)]
            && !Restorable(conv, schema, RowsOf(schema.columns, w.tables[t].live))
  {
    hide IsEncoding, ValidSchema, Decoded, CanonRow, Restorable, T.Reaches, T.Init, Clash;
    var cs := schema.columns;
    w0, w := T.TwoRowsCommitted(k1, da, k2, db);
    StoredRow(conv, schema, a, da);
    StoredRow(conv, schema, b, db);
    var r1, r2 := CanonRow(conv, cs, a), CanonRow(conv, cs, b);
    assert RowsOf(cs, w.tables[Name("t")].live) == map[k1 := r1, k2 := r2];
    StillClashes(conv, schema, a, b, da, db, i);
    ClashingImageRefused(conv, schema, r1, r2, k1, k2, i);
  }

  lemma {:induction false} StillClashes(conv: Conversion, schema: Schema, a: Row, b: Row, da: bytes, db: bytes, i: nat)
    requires ValidSchema(schema.columns) && i < |schema.columns| && Clash(schema, a, b, i)
    requires IsEncoding(conv, schema, a, da) && IsEncoding(conv, schema, b, db)
    ensures Clash(schema, CanonRow(conv, schema.columns, a), CanonRow(conv, schema.columns, b), i)
  {
    hide CanonRow, Fits, Canon, IndexKey;
    var cs := schema.columns;
    CanonFields(conv, cs, a);
    CanonFields(conv, cs, b);
    CanonSettled(conv, cs[i].kind, Field(a, cs[i].name));
    CanonSameKey(conv, cs[i].kind, Field(a, cs[i].name), Field(b, cs[i].name));
  }

  lemma CanonSameKey(conv: Conversion, kind: Kind, v: Value, w: Value)
    requires IndexKey(v) == IndexKey(w)
    ensures IndexKey(Canon(conv, kind, v)) == IndexKey(Canon(conv, kind, w))
  {
  }
}
