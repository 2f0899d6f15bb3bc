/** The SQL executor's transaction control over shared tables, and the row overlay reads go through. */
module Executor {
  import opened Common
  import opened Bytes
  import opened Page
  import opened StoreSpec
  import opened Transactions
  import S = Store

  /** A row with the key it is stored under, the printed first column. */
  datatype KeyedRow = KeyedRow(key: bytes, value: bytes)

  ghost predicate Distinct(rows: seq<KeyedRow>)
  {
    forall i, j :: 0 <= i < j < |rows| ==> rows[i].key != rows[j].key
  }

  /** The rows are exactly the pairs of the map. */
  ghost predicate Shows(rows: seq<KeyedRow>, m: map<bytes, bytes>)
  {
    Distinct(rows) && forall r :: r in rows <==> r.key in m && m[r.key] == r.value
  }

  // --------------------------------------------------------------- overlay

  /** Every row is found under its key. */
  ghost predicate Indexed(rows: seq<KeyedRow>, byKey: map<bytes, nat>)
  {
    forall j :: 0 <= j < |rows| ==> rows[j].key in byKey && byKey[rows[j].key] == j
  }

  /** Keys still to be processed are indexed only if their row is there. */
  ghost predicate Trusted(rows: seq<KeyedRow>, byKey: map<bytes, nat>, todo: set<bytes>)
  {
    forall k :: k in todo && k in byKey ==> byKey[k] < |rows| && rows[byKey[k]].key == k
  }

  function Shifted(byKey: map<bytes, nat>, i: nat): map<bytes, nat>
  {
    map k | k in byKey :: if byKey[k] > i then byKey[k] - 1 else byKey[k]
  }

  /** Move every index above `i` down by one, key by key. */
  method ShiftDown(byKey: map<bytes, nat>, i: nat) returns (shifted: map<bytes, nat>)
    ensures shifted == Shifted(byKey, i)
  {
    shifted := byKey;
    var todo := byKey.Keys;
    while todo != {}
      invariant todo <= byKey.Keys && shifted.Keys == byKey.Keys
      invariant forall k :: k in byKey ==> shifted[k] == if k in todo then byKey[k] else Shifted(byKey, i)[k]
      decreases |todo|
    {
      var k :| k in todo;
      if shifted[k] > i {
        shifted := shifted[k := shifted[k] - 1];
      }
      todo := todo - {k};
    }
  }

  method IndexRows(rows: seq<KeyedRow>) returns (byKey: map<bytes, nat>)
    requires Distinct(rows)
    ensures Indexed(rows, byKey) && forall k :: k in byKey ==> byKey[k] < |rows| && rows[byKey[k]].key == k
  {
    byKey := map[];
    for i := 0 to |rows|
      invariant Indexed(rows[..i], byKey)
      invariant forall k :: k in byKey ==> byKey[k] < i && rows[byKey[k]].key == k
    {
      byKey := byKey[rows[i].key := i];
    }
    assert rows[..|rows|] == rows;
  }

  /** The part of a write set already walked. */
  ghost function Walked(writes: map<bytes, Staged>, todo: set<bytes>): map<bytes, Staged>
  {
    map k | k in writes && k !in todo :: writes[k]
  }

  lemma {:induction false} OverlayStep(base: map<bytes, bytes>, writes: map<bytes, Staged>, todo: set<bytes>, k: bytes)
    requires todo <= writes.Keys && k in todo
    ensures var m := Overlay(base, Walked(writes, todo));
            Overlay(base, Walked(writes, todo - {k})) == if writes[k].Row? then m[k := writes[k].value] else m - {k}
  {
    hide Overlay;
    assert Walked(writes, todo - {k}) == Walked(writes, todo)[k := writes[k]];
    OverlayOne(base, Walked(writes, todo), k, writes[k]);
  }

  lemma {:induction false} OverlayOne(base: map<bytes, bytes>, writes: map<bytes, Staged>, k: bytes, write: Staged)
    ensures Overlay(base, writes[k := write]) ==
            if write.Row? then Overlay(base, writes)[k := write.value] else Overlay(base, writes) - {k}
  {
    var a, b := Overlay(base, writes[k := write]), Overlay(base, writes);
    if write.Row? {
      assert a == b[k := write.value];
    } else {
      assert a == b - {k};
    }
  }

  lemma {:induction false} RemovedAt(rows: seq<KeyedRow>, i: nat)
    requires i < |rows|
    ensures var s := rows[..i] + rows[i + 1..];
            forall j :: 0 <= j < |s| ==> s[j] == if j < i then rows[j] else rows[j + 1]
  {
  }

  lemma {:induction false} IndexedRemoved(rows: seq<KeyedRow>, byKey: map<bytes, nat>, i: nat)
    requires Indexed(rows, byKey) && i < |rows|
    ensures Indexed(rows[..i] + rows[i + 1..], Shifted(byKey, i))
  {
    RemovedAt(rows, i);
  }

  lemma {:induction false} ShowsRemoved(rows: seq<KeyedRow>, m: map<bytes, bytes>, byKey: map<bytes, nat>, i: nat)
    requires Shows(rows, m) && Indexed(rows, byKey) && i < |rows|
    ensures Shows(rows[..i] + rows[i + 1..], m - {rows[i].key})
    ensures Indexed(rows[..i] + rows[i + 1..], Shifted(byKey, i))
  {
    hide Indexed, Distinct;
    IndexedRemoved(rows, byKey, i);
    DistinctRemoved(rows, i);
    OthersRemain(rows, i);
  }

  lemma {:induction false} DistinctRemoved(rows: seq<KeyedRow>, i: nat)
    requires Distinct(rows) && i < |rows|
    ensures Distinct(rows[..i] + rows[i + 1..])
  {
    RemovedAt(rows, i);
  }

  lemma {:induction false} OthersRemain(rows: seq<KeyedRow>, i: nat)
    requires Distinct(rows) && i < |rows|
    ensures forall r :: r in rows[..i] + rows[i + 1..] <==> r in rows && r.key != rows[i].key
  {
    var s := rows[..i] + rows[i + 1..];
    RemovedAt(rows, i);
    forall r | r in rows && r.key != rows[i].key ensures r in s {
      var j :| 0 <= j < |rows| && rows[j] == r;
      assert s[if j < i then j else j - 1] == r;
    }
  }

  lemma {:induction false} TrustedRemoved(rows: seq<KeyedRow>, byKey: map<bytes, nat>, todo: set<bytes>, k: bytes)
    requires Trusted(rows, byKey, todo) && Indexed(rows, byKey) && k in todo && k in byKey
    ensures var i := byKey[k];
            i < |rows| && Trusted(rows[..i] + rows[i + 1..], Shifted(byKey, i), todo - {k})
  {
    var i := byKey[k];
    var s, shifted := rows[..i] + rows[i + 1..], Shifted(byKey, i);
    forall x | x in todo - {k} && x in shifted ensures shifted[x] < |s| && s[shifted[x]].key == x {
      var j := byKey[x];
      assert rows[j].key == x;
      assert j != i;
      assert s[if j < i then j else j - 1] == rows[j];
    }
  }

  lemma {:induction false} ShowsReplaced(rows: seq<KeyedRow>, m: map<bytes, bytes>, i: nat, v: bytes)
    requires Shows(rows, m) && i < |rows|
    ensures Shows(rows[i := KeyedRow(rows[i].key, v)], m[rows[i].key := v])
  {
    var s := rows[i := KeyedRow(rows[i].key, v)];
    forall r: KeyedRow | r.key in m[rows[i].key := v] && m[rows[i].key := v][r.key] == r.value ensures r in s {
      if r.key == rows[i].key {
        assert s[i] == r;
      } else {
        assert r in rows;
        var j :| 0 <= j < |rows| && rows[j] == r;
        assert s[j] == r;
      }
    }
  }

  lemma {:induction false} ShowsAdded(rows: seq<KeyedRow>, m: map<bytes, bytes>, k: bytes, v: bytes)
    requires Shows(rows, m) && k !in m
    ensures Shows(rows + [KeyedRow(k, v)], m[k := v])
  {
    var s := rows + [KeyedRow(k, v)];
    assert forall j :: 0 <= j < |rows| ==> rows[j] in rows && rows[j].key in m;
    assert s[|rows|] == KeyedRow(k, v);
  }

  lemma {:induction false} NotShown(rows: seq<KeyedRow>, m: map<bytes, bytes>, byKey: map<bytes, nat>, k: bytes)
    requires Shows(rows, m) && Indexed(rows, byKey) && k !in byKey
    ensures k !in m
  {
    assert forall r :: r in rows ==> r.key in byKey;
    var v := if k in m then m[k] else [];
    assert KeyedRow(k, v) !in rows;
  }

  /**
   * The rows a statement inside a transaction works on: the snapshot's rows with
   * the staged writes laid over them in place, walking the write set in an
   * arbitrary order.
   */
  method OverlayRows(rows0: seq<KeyedRow>, writes: map<bytes, Staged>, ghost base: map<bytes, bytes>) returns (rows: seq<KeyedRow>)
    requires Shows(rows0, base)
    ensures Shows(rows, Overlay(base, writes))
  {
    hide Shows, Overlay, Walked, Indexed, Trusted, Shifted;
    ShowsDistinct(rows0, base);
    rows := rows0;
    var byKey: map<bytes, nat> := IndexRows(rows);
    var todo := writes.Keys;
    WalkedEnds(base, writes);
    StartTrusted(rows, byKey, todo);
    while todo != {}
      invariant todo <= writes.Keys
      invariant Shows(rows, Overlay(base, Walked(writes, todo)))
      invariant Indexed(rows, byKey) && Trusted(rows, byKey, todo)
      decreases |todo|
    {
      var key :| key in todo;
      OverlayStep(base, writes, todo, key);
      ghost var m := Overlay(base, Walked(writes, todo));
      if key in byKey {
        var i := byKey[key];
        TrustedAt(rows, byKey, todo, key);
        if writes[key].Deleted? {
          ShowsRemoved(rows, m, byKey, i);
          TrustedRemoved(rows, byKey, todo, key);
          rows := rows[..i] + rows[i + 1..];
          byKey := ShiftDown(byKey, i);
        } else {
          ShowsReplaced(rows, m, i, writes[key].value);
          ReplacedIndexed(rows, byKey, todo, i, writes[key].value);
          rows := rows[i := KeyedRow(key, writes[key].value)];
        }
      } else {
        NotShown(rows, m, byKey, key);
        AddedIndexed(rows, byKey, todo, key, writes[key]);
        if writes[key].Row? {
          ShowsAdded(rows, m, key, writes[key].value);
          byKey := byKey[key := |rows|];
          rows := rows + [KeyedRow(key, writes[key].value)];
        } else {
          assert m - {key} == m;
        }
      }
      todo := todo - {key};
    }
  }

  /** `ScanAt`: every key live at the snapshot, with the value it had there. */
  method ScanAt(s: S.Store, snapshot: nat) returns (rows: seq<KeyedRow>)
    ensures Shows(rows, RowsAt(s.versions, snapshot))
  {
    hide GetAt;
    var keys := s.KeysAt(snapshot);
    rows := [];
    for i := 0 to |keys|
      invariant |rows| == i && forall j :: 0 <= j < i ==> rows[j].key == keys[j] && GetAt(s.versions, snapshot, keys[j]) == Some(rows[j].value)
    {
      var value, found := s.ReadAt(snapshot, keys[i]);
      assert keys[i] in keys;
      rows := rows + [KeyedRow(keys[i], value)];
    }
    ListedAt(s.versions, snapshot, keys, rows);
  }

  lemma {:induction false} ListedAt(versions: Versions, snapshot: nat, keys: seq<bytes>, rows: seq<KeyedRow>)
    requires forall i, j :: 0 <= i < j < |keys| ==> keys[i] != keys[j]
    requires forall k :: k in keys <==> GetAt(versions, snapshot, k).Some?
    requires |rows| == |keys|
    requires forall j :: 0 <= j < |keys| ==> rows[j].key == keys[j] && GetAt(versions, snapshot, keys[j]) == Some(rows[j].value)
    ensures Shows(rows, RowsAt(versions, snapshot))
  {
    hide VisibleAt;
    var m := RowsAt(versions, snapshot);
    forall r: KeyedRow | r.key in m && m[r.key] == r.value ensures r in rows {
      var j :| 0 <= j < |keys| && keys[j] == r.key;
      assert rows[j] == r;
    }
    forall r | r in rows ensures r.key in m && m[r.key] == r.value {
      if r.key !in versions { NoVersions(versions, snapshot, r.key); }
    }
  }

  /** The rows a statement inside a transaction works on: the snapshot, overlaid with the staged writes. */
  method TransactionRows(s: S.Store, part: Part) returns (rows: seq<KeyedRow>)
    ensures Shows(rows, TxRows(s.Abs(), part))
  {
    hide Shows, Overlay, RowsAt;
    rows := ScanAt(s, part.readAt);
    rows := OverlayRows(rows, part.writes, RowsAt(s.versions, part.readAt));
  }

  lemma ShowsDistinct(rows: seq<KeyedRow>, m: map<bytes, bytes>)
    requires Shows(rows, m)
    ensures Distinct(rows)
  {
  }

  lemma WalkedEnds(base: map<bytes, bytes>, writes: map<bytes, Staged>)
    ensures Overlay(base, Walked(writes, writes.Keys)) == base
    ensures Walked(writes, {}) == writes
  {
    assert Walked(writes, writes.Keys) == map[];
  }

  lemma StartTrusted(rows: seq<KeyedRow>, byKey: map<bytes, nat>, todo: set<bytes>)
    requires forall k :: k in byKey ==> byKey[k] < |rows| && rows[byKey[k]].key == k
    ensures Trusted(rows, byKey, todo)
  {
  }

  lemma TrustedAt(rows: seq<KeyedRow>, byKey: map<bytes, nat>, todo: set<bytes>, k: bytes)
    requires Trusted(rows, byKey, todo) && k in todo && k in byKey
    ensures byKey[k] < |rows| && rows[byKey[k]].key == k
  {
  }

  lemma ReplacedIndexed(rows: seq<KeyedRow>, byKey: map<bytes, nat>, todo: set<bytes>, i: nat, v: bytes)
    requires Indexed(rows, byKey) && Trusted(rows, byKey, todo) && i < |rows|
    ensures Indexed(rows[i := KeyedRow(rows[i].key, v)], byKey)
    ensures Trusted(rows[i := KeyedRow(rows[i].key, v)], byKey, todo - {rows[i].key})
  {
  }

  lemma AddedIndexed(rows: seq<KeyedRow>, byKey: map<bytes, nat>, todo: set<bytes>, k: bytes, write: Staged)
    requires Indexed(rows, byKey) && Trusted(rows, byKey, todo) && k !in byKey
    ensures Trusted(rows, byKey, todo - {k})
    ensures write.Row? ==>
            && Indexed(rows + [KeyedRow(k, write.value)], byKey[k := |rows|])
            && Trusted(rows + [KeyedRow(k, write.value)], byKey[k := |rows|], todo - {k})
  {
  }

  // --------------------------------------------------------------- executor

  /** The tables that all executors share. */
  class Database {
    var tables: map<Name, Db>

    constructor (tables: map<Name, Db>)
      ensures this.tables == tables
    {
      this.tables := tables;
    }
  }

  datatype Outcome = Done | NoTransaction | AlreadyOpen | ConflictFound | EncodingFailed

  class Executor {
    const db: Database
    var tx: Option<Tx>

    constructor (db: Database)
      ensures this.db == db && tx == None
    {
      this.db, tx := db, None;
    }

    /** Take a snapshot and an image of every table. */
    method Begin(now: nat) returns (outcome: Outcome)
      modifies this, db
      ensures outcome == if old(tx).Some? then AlreadyOpen else Done
      ensures outcome != Done ==> db.tables == old(db.tables) && tx == old(tx)
      ensures outcome == Done ==> tx.Some? && tx.value.began == now && Begun(old(db.tables), tx.value.parts, db.tables)
    {
      if tx.Some? {
        return AlreadyOpen;
      }
      var tables, parts := TakeSnapshots(db.tables);
      db.tables, tx := tables, Some(Tx(now, parts));
      return Done;
    }

    /** Stage a write; outside a transaction, or for a table it does not cover, nothing happens. */
    method RecordWrite(t: Name, key: bytes, write: Staged)
      modifies this
      ensures tx == if old(tx).Some? && t in old(tx).value.parts
                    then Some(StagedTx(old(tx).value, t, key, write)) else old(tx)
    {
      if tx.Some? && t in tx.value.parts {
        var part := tx.value.parts[t];
        tx := Some(tx.value.(parts := tx.value.parts[t := part.(writes := part.writes[key := write])]));
      }
    }

    /** Refuse on any newer version of a written key; otherwise apply table by table and release. */
    method Commit() returns (outcome: Outcome, applied: set<Name>)
      requires tx.Some? ==> tx.value.parts.Keys == db.tables.Keys
      modifies this, db
      ensures outcome == NoTransaction <==> old(tx).None?
      ensures outcome == ConflictFound <==> old(tx).Some? && Conflict(old(db.tables), old(tx).value)
      ensures outcome == NoTransaction || outcome == ConflictFound ==> db.tables == old(db.tables) && tx == old(tx)
      ensures outcome == Done ==> tx == None && CommitTables(old(db.tables), old(tx).value, db.tables)
      ensures outcome == EncodingFailed ==>
                && tx == old(tx) && BrokenTables(old(db.tables), old(tx).value, applied, db.tables)
                && exists t :: t in old(tx).value.parts && t !in applied && !Encodable(old(tx).value.parts[t].writes)
      ensures outcome != AlreadyOpen
    {
      hide Conflict, CommitTables, BrokenTables, Encodable;
      applied := {};
      if tx.None? {
        return NoTransaction, {};
      }
      var conflict := FindConflict(db.tables, tx.value);
      if conflict {
        return ConflictFound, {};
      }
      var tables;
      tables, applied := ApplyTables(db.tables, tx.value);
      if applied != db.tables.Keys {
        db.tables := tables;
        return EncodingFailed, applied;
      }
      CommitFromParts(db.tables, tx.value, tables);
      db.tables, tx := ReleaseAll(tables), None;
      return Done, applied;
    }

    /** Put every table back to its image and release. */
    method Rollback() returns (outcome: Outcome)
      requires tx.Some? ==> tx.value.parts.Keys == db.tables.Keys
      modifies this, db
      ensures outcome == if old(tx).None? then NoTransaction else Done
      ensures outcome == NoTransaction ==> db.tables == old(db.tables) && tx == old(tx)
      ensures outcome == Done ==> tx == None && RolledBack(old(db.tables), old(tx).value, db.tables)
    {
      hide RestoredAndReleased, RolledBack;
      if tx.None? {
        return NoTransaction;
      }
      var tables := RestoreTables(db.tables, tx.value);
      RollbackFromParts(db.tables, tx.value, tables);
      db.tables, tx := ReleaseAll(tables), None;
      return Done;
    }
  }

  /** What ROLLBACK does to the tables. */
  ghost predicate RolledBack(tables: map<Name, Db>, tx: Tx, tables': map<Name, Db>)
  {
    && tables'.Keys == tables.Keys == tx.parts.Keys
    && forall t :: t in tables ==> RestoredAndReleased(tables[t], tx.parts[t].image, tables'[t])
  }

  /** What BEGIN does to the tables and what it keeps of them. */
  ghost predicate Begun(tables: map<Name, Db>, parts: map<Name, Part>, tables': map<Name, Db>)
  {
    && tables'.Keys == tables.Keys == parts.Keys
    && forall t :: t in tables ==> TableBegun(tables[t], parts[t], tables'[t])
  }

  ghost predicate TableBegun(table: Db, part: Part, table': Db)
  {
    table' == Serve(table, Beginning) && part == Part(table.seqno, table.live, map[])
  }

  /** The same for all tables but those still to do. */
  ghost predicate BegunBut(tables: map<Name, Db>, todo: set<Name>, parts: map<Name, Part>, tables': map<Name, Db>)
  {
    && todo <= tables.Keys == tables'.Keys && parts.Keys == tables.Keys - todo
    && forall t :: t in tables ==> if t in todo then tables'[t] == tables[t] else TableBegun(tables[t], parts[t], tables'[t])
  }

  lemma {:induction false} BegunOneMore(tables: map<Name, Db>, todo: set<Name>, parts: map<Name, Part>, tables': map<Name, Db>, t: Name, table: Db, part: Part)
    requires BegunBut(tables, todo, parts, tables') && t in todo && TableBegun(tables[t], part, table)
    ensures BegunBut(tables, todo - {t}, parts[t := part], tables'[t := table])
  {
    hide TableBegun;
  }

  function StagedTx(tx: Tx, t: Name, k: bytes, write: Staged): Tx
    requires t in tx.parts
  {
    tx.(parts := tx.parts[t := tx.parts[t].(writes := tx.parts[t].writes[k := write])])
  }

  ghost predicate CommitTables(tables: map<Name, Db>, tx: Tx, tables': map<Name, Db>)
  {
    && tables'.Keys == tables.Keys == tx.parts.Keys
    && forall t :: t in tables ==>
         Encodable(tx.parts[t].writes) && WroteAndReleased(tables[t], tx.parts[t].writes, tables'[t])
  }

  ghost predicate BrokenTables(tables: map<Name, Db>, tx: Tx, applied: set<Name>, tables': map<Name, Db>)
  {
    && tables'.Keys == tables.Keys == tx.parts.Keys
    && forall t :: t in tables ==>
         if t in applied then Encodable(tx.parts[t].writes) && Wrote(tables[t], tx.parts[t].writes, tables'[t])
         else tables'[t] == tables[t]
  }

  /** The class's requests are the steps of the protocol. */
  lemma {:induction false} BeginIsStep(w: World, c: Client, parts: map<Name, Part>, tables: map<Name, Db>)
    requires c !in w.open && Begun(w.tables, parts, tables)
    ensures Next(w, Begin(c), World(w.clock + 1, tables, w.open[c := Tx(w.clock, parts)], w.history))
  {
    assert parts == map t | t in w.tables :: Part(w.tables[t].seqno, w.tables[t].live, map[]);
  }

  lemma {:induction false} CommitIsStep(w: World, c: Client, tables: map<Name, Db>)
    requires c in w.open && !Conflict(w.tables, w.open[c]) && CommitTables(w.tables, w.open[c], tables)
    ensures exists e :: Next(w, CommitDone(c), World(w.clock + 1, tables, w.open - {c}, w.history + [e]))
  {
    hide Conflict, WroteAndReleased, Encodable, KeysOf;
    var e := Commit(w.open[c].began, w.clock, map t | t in w.tables :: w.tables[t].seqno, KeysOf(w.open[c]));
    assert Next(w, CommitDone(c), World(w.clock + 1, tables, w.open - {c}, w.history + [e]));
  }

  lemma {:induction false} RecordWriteIsStep(w: World, c: Client, t: Name, key: bytes, write: Staged)
    requires c in w.open && t in w.open[c].parts
    ensures Next(w, Stage(c, t, key, write),
                 World(w.clock + 1, w.tables, w.open[c := StagedTx(w.open[c], t, key, write)], w.history))
  {
  }

  /** A refused commit changes nothing, not even the transaction. */
  lemma {:induction false} ConflictIsStep(w: World, c: Client)
    requires c in w.open && Conflict(w.tables, w.open[c])
    ensures Next(w, CommitConflict(c), World(w.clock + 1, w.tables, w.open, w.history))
  {
    hide Conflict;
  }

  lemma {:induction false} RollbackIsStep(w: World, c: Client, tables: map<Name, Db>)
    requires c in w.open && RolledBack(w.tables, w.open[c], tables)
    ensures Next(w, Rollback(c), World(w.clock + 1, tables, w.open - {c}, w.history))
  {
    hide RestoredAndReleased;
  }

  lemma {:induction false} BrokenCommitIsStep(w: World, c: Client, applied: set<Name>, tables: map<Name, Db>)
    requires c in w.open && !Conflict(w.tables, w.open[c]) && BrokenTables(w.tables, w.open[c], applied, tables)
    ensures Next(w, CommitBroken(c, applied), World(w.clock + 1, tables, w.open, w.history))
  {
    hide Conflict, Wrote, Encodable;
  }

  lemma ServedBegin(table: Db)
    ensures TableBegun(table, Part(table.seqno, table.live, map[]), table.(snapshots := table.snapshots + 1))
  {
  }

  method TakeSnapshots(tables: map<Name, Db>) returns (tables': map<Name, Db>, parts: map<Name, Part>)
    ensures Begun(tables, parts, tables')
  {
    hide AppendAll, Serve, TableBegun, BegunBut, Begun;
    tables', parts := tables, map[];
    var todo := tables.Keys;
    BegunEnds(tables, todo, parts, tables');
    while todo != {}
      invariant todo <= tables.Keys && BegunBut(tables, todo, parts, tables')
      decreases |todo|
    {
      var t :| t in todo;
      var table, part := tables[t].(snapshots := tables[t].snapshots + 1), Part(tables[t].seqno, tables[t].live, map[]);
      ServedBegin(tables[t]);
      BegunOneMore(tables, todo, parts, tables', t, table, part);
      tables', parts, todo := tables'[t := table], parts[t := part], todo - {t};
    }
    BegunEnds(tables, todo, parts, tables');
  }

  /** At first nothing is done; with nothing left to do every table is begun. */
  lemma BegunEnds(tables: map<Name, Db>, todo: set<Name>, parts: map<Name, Part>, tables': map<Name, Db>)
    ensures tables' == tables && parts == map[] && todo == tables.Keys ==> BegunBut(tables, todo, parts, tables')
    ensures todo == {} ==> (BegunBut(tables, todo, parts, tables') <==> Begun(tables, parts, tables'))
  {
    hide TableBegun;
  }

  method FindConflict(tables: map<Name, Db>, tx: Tx) returns (found: bool)
    requires tx.parts.Keys == tables.Keys
    ensures found <==> Conflict(tables, tx)
  {
    hide ChangedSince;
    var todo := tx.parts.Keys;
    while todo != {}
      invariant todo <= tx.parts.Keys
      invariant forall t, k :: t in tx.parts && t !in todo && k in tx.parts[t].writes ==>
                  !ChangedSince(tables[t].versions, tx.parts[t].readAt, k)
      decreases |todo|
    {
      var t :| t in todo;
      var keys := tx.parts[t].writes.Keys;
      while keys != {}
        invariant keys <= tx.parts[t].writes.Keys
        invariant forall k :: k in tx.parts[t].writes && k !in keys ==>
                    !ChangedSince(tables[t].versions, tx.parts[t].readAt, k)
        decreases |keys|
      {
        var k :| k in keys;
        if ChangedSince(tables[t].versions, tx.parts[t].readAt, k) {
          return true;
        }
        keys := keys - {k};
      }
      todo := todo - {t};
    }
    return false;
  }

  /** Encode a write set and append it as one batch; nothing is appended when a row has no encoding. */
  method ApplyRowsBatch(table: Db, writes: map<bytes, Staged>) returns (ok: bool, table': Db)
    ensures ok <==> Encodable(writes)
    ensures if ok then Wrote(table, writes, table') else table' == table
  {
    hide AppendAll;
    var ops: seq<Rec> := [];
    var todo := writes.Keys;
    while todo != {}
      invariant todo <= writes.Keys
      invariant forall i, j :: 0 <= i < j < |ops| ==> ops[i].key != ops[j].key
      invariant forall i :: 0 <= i < |ops| ==>
                  ops[i].key in writes && ops[i].key !in todo && ops[i] == RecFor(ops[i].key, writes[ops[i].key])
      invariant forall k :: k in writes && k !in todo ==> RecFor(k, writes[k]) in ops && (writes[k].Row? ==> writes[k].encodable)
      decreases |todo|
    {
      var k :| k in todo;
      if writes[k].Row? && !writes[k].encodable {
        return false, table;
      }
      ops := ops + [RecFor(k, writes[k])];
      todo := todo - {k};
    }
    assert Enumerates(ops, writes);
    return true, AppendAll(table, ops);
  }

  lemma {:induction false} NothingApplied(tables: map<Name, Db>, tx: Tx)
    requires tx.parts.Keys == tables.Keys
    ensures BrokenTables(tables, tx, {}, tables)
  {
  }

  lemma {:induction false} AppliedOneMore(tables: map<Name, Db>, tx: Tx, applied: set<Name>, tables': map<Name, Db>, t: Name, db: Db)
    requires BrokenTables(tables, tx, applied, tables') && t in tables && t !in applied
    requires Encodable(tx.parts[t].writes) && Wrote(tables[t], tx.parts[t].writes, db)
    ensures BrokenTables(tables, tx, applied + {t}, tables'[t := db])
  {
    hide Encodable, Wrote;
  }

  /** Apply the write sets table by table, stopping at the first that cannot be encoded. */
  method ApplyTables(tables: map<Name, Db>, tx: Tx) returns (tables': map<Name, Db>, applied: set<Name>)
    requires tx.parts.Keys == tables.Keys
    ensures applied <= tables.Keys && BrokenTables(tables, tx, applied, tables')
    ensures applied != tables.Keys ==> exists t :: t in tx.parts && t !in applied && !Encodable(tx.parts[t].writes)
  {
    hide Encodable, Wrote, BrokenTables;
    NothingApplied(tables, tx);
    tables', applied := tables, {};
    var todo := tx.parts.Keys;
    while todo != {}
      invariant todo <= tables.Keys && applied == tables.Keys - todo
      invariant BrokenTables(tables, tx, applied, tables')
      decreases |todo|
    {
      var t :| t in todo;
      var ok, table' := ApplyRowsBatch(tables[t], tx.parts[t].writes);
      if !ok {
        return;
      }
      AppliedOneMore(tables, tx, applied, tables', t, table');
      tables', applied, todo := tables'[t := table'], applied + {t}, todo - {t};
    }
  }

  function ReleaseAll(tables: map<Name, Db>): map<Name, Db>
  {
    map t | t in tables :: Release(tables[t])
  }

  lemma {:induction false} CommitFromParts(tables: map<Name, Db>, tx: Tx, tables': map<Name, Db>)
    requires BrokenTables(tables, tx, tables.Keys, tables')
    ensures CommitTables(tables, tx, ReleaseAll(tables'))
  {
    hide Encodable, Wrote, Release;
  }

  /** Append the writes one at a time, in whatever order the map is walked. */
  method AppendEach(table: Db, writes: map<bytes, Staged>) returns (table': Db)
    ensures Wrote(table, writes, table')
  {
    hide AppendAll, StoreSpec.Append;
    table' := table;
    AppendAllNone(table);
    ghost var rs: seq<Rec> := [];
    var todo := writes.Keys;
    while todo != {}
      invariant todo <= writes.Keys && table' == AppendAll(table, rs)
      invariant forall i, j :: 0 <= i < j < |rs| ==> rs[i].key != rs[j].key
      invariant forall i :: 0 <= i < |rs| ==>
                  rs[i].key in writes && rs[i].key !in todo && rs[i] == RecFor(rs[i].key, writes[rs[i].key])
      invariant forall k :: k in writes && k !in todo ==> RecFor(k, writes[k]) in rs
    {
      var k :| k in todo;
      AppendAllPush(table, rs, RecFor(k, writes[k]));
      table' := StoreSpec.Append(table', RecFor(k, writes[k]));
      rs := rs + [RecFor(k, writes[k])];
      todo := todo - {k};
    }
    assert Enumerates(rs, writes);
  }

  /** Delete every live row, then insert the rows of the image. */
  method RestoreTable(table: Db, image: map<bytes, bytes>) returns (table': Db)
    ensures Restored(table, image, table')
  {
    hide AppendAll, Enumerates;
    table' := AppendEach(table, map k | k in table.live :: Deleted);
    table' := AppendEach(table', map k | k in image :: Row(image[k], true));
  }

  method RestoreTables(tables: map<Name, Db>, tx: Tx) returns (tables': map<Name, Db>)
    requires tx.parts.Keys == tables.Keys
    ensures tables'.Keys == tables.Keys
    ensures forall t :: t in tables ==> Restored(tables[t], tx.parts[t].image, tables'[t])
  {
    hide Restored;
    tables' := tables;
    var todo := tx.parts.Keys;
    while todo != {}
      invariant todo <= tables.Keys == tables'.Keys
      invariant forall t :: t in tables && t !in todo ==> Restored(tables[t], tx.parts[t].image, tables'[t])
    {
      var t :| t in todo;
      var table := RestoreTable(tables[t], tx.parts[t].image);
      tables', todo := tables'[t := table], todo - {t};
    }
  }

  lemma {:induction false} RollbackFromParts(tables: map<Name, Db>, tx: Tx, tables': map<Name, Db>)
    requires tables'.Keys == tables.Keys == tx.parts.Keys
    requires forall t :: t in tables ==> Restored(tables[t], tx.parts[t].image, tables'[t])
    ensures RolledBack(tables, tx, ReleaseAll(tables'))
  {
    hide Restored, Release;
  }
}
