/**
 * The transaction protocol: any number of clients, one request at a time,
 * against shared tables.  BEGIN takes a snapshot of every table, statements
 * stage private writes, COMMIT checks every written key for newer versions.
 */
module Transactions {
  import opened Common
  import opened Bytes
  import opened Page
  import opened StoreSpec

  type Client = nat

  /**
   * A staged write: a row or a deletion.  A row stands for its encoding;
   * staging does not check that it has one.
   */
  datatype Staged = Row(value: bytes, encodable: bool) | Deleted

  datatype Part = Part(readAt: nat, image: map<bytes, bytes>, writes: map<bytes, Staged>)

  datatype Tx = Tx(began: nat, parts: map<Name, Part>)

  /** A successful COMMIT: when it began and committed, each table's sequence number just before, the keys written. */
  datatype Commit = Commit(began: nat, at: nat, before: map<Name, nat>, keys: set<(Name, bytes)>)

  datatype World = World(clock: nat, tables: map<Name, Db>, open: map<Client, Tx>, history: seq<Commit>)

  // ------------------------------------------------------------------ steps

  datatype Step =
    | Begin(client: Client)
    | Stage(client: Client, table: Name, key: bytes, write: Staged)
    | CommitDone(client: Client)
    | CommitConflict(client: Client)
    | CommitBroken(client: Client, applied: set<Name>)
    | Rollback(client: Client)
    | AutoWrite(table: Name, rs: seq<Rec>)
    | Compact(table: Name, listing: seq<Rec>)

  predicate Encodable(writes: map<bytes, Staged>)
  {
    forall k :: k in writes && writes[k].Row? ==> writes[k].encodable
  }

  function RecFor(k: bytes, w: Staged): Rec
  {
    match w
    case Row(value, _) => Rec(LIVE, k, value)
    case Deleted => Rec(TOMBSTONE, k, [])
  }

  /** The records of a write set, each key once, in whatever order the map was walked. */
  ghost predicate Enumerates(rs: seq<Rec>, writes: map<bytes, Staged>)
  {
    && (forall i, j :: 0 <= i < j < |rs| ==> rs[i].key != rs[j].key)
    && (forall i :: 0 <= i < |rs| ==> rs[i].key in writes && rs[i] == RecFor(rs[i].key, writes[rs[i].key]))
    && (forall k :: k in writes ==> RecFor(k, writes[k]) in rs)
  }

  /** Some written key has a version younger than the transaction's snapshot. */
  ghost predicate Conflict(tables: map<Name, Db>, tx: Tx)
  {
    exists t, k :: t in tx.parts && t in tables && k in tx.parts[t].writes &&
      ChangedSince(tables[t].versions, tx.parts[t].readAt, k)
  }

  ghost predicate Wrote(db: Db, writes: map<bytes, Staged>, db': Db)
  {
    exists rs :: Enumerates(rs, writes) && db' == AppendAll(db, rs)
  }

  /** Delete every live row, then insert the rows of the image. */
  ghost predicate Restored(db: Db, image: map<bytes, bytes>, db': Db)
  {
    exists gone: seq<Rec>, back: seq<Rec> ::
      && Enumerates(gone, map k | k in db.live :: Deleted)
      && Enumerates(back, map k | k in image :: Row(image[k], true))
      && db' == AppendAll(AppendAll(db, gone), back)
  }

  function Release(db: Db): Db
  {
    Serve(db, Releasing)
  }

  ghost predicate WroteAndReleased(db: Db, writes: map<bytes, Staged>, db': Db)
  {
    exists mid :: Wrote(db, writes, mid) && db' == Release(mid)
  }

  ghost predicate RestoredAndReleased(db: Db, image: map<bytes, bytes>, db': Db)
  {
    exists mid :: Restored(db, image, mid) && db' == Release(mid)
  }

  ghost function KeysOf(tx: Tx): set<(Name, bytes)>
  {
    set t, k | t in tx.parts && k in tx.parts[t].writes :: (t, k)
  }

  ghost predicate SameNames(w: World, w': World)
  {
    w'.tables.Keys == w.tables.Keys && w'.clock == w.clock + 1
  }

  ghost predicate Next(w: World, step: Step, w': World)
  {
    && SameNames(w, w')
    && match step
       case Begin(c) =>
         && c !in w.open
         && (forall t :: t in w.tables ==> w'.tables[t] == Serve(w.tables[t], Beginning))
         && w'.open == w.open[c := Tx(w.clock, map t | t in w.tables :: Part(w.tables[t].seqno, w.tables[t].live, map[]))]
         && w'.history == w.history
       case Stage(c, t, k, write) =>
         && c in w.open && t in w.open[c].parts
         && w'.tables == w.tables
         && (var part := w.open[c].parts[t];
             w'.open == w.open[c := w.open[c].(parts := w.open[c].parts[t := part.(writes := part.writes[k := write])])])
         && w'.history == w.history
       case CommitDone(c) =>
         && c in w.open && w.open[c].parts.Keys == w.tables.Keys && !Conflict(w.tables, w.open[c])
         && (forall t :: t in w.tables ==> Encodable(w.open[c].parts[t].writes))
         && (forall t :: t in w.tables ==>
               WroteAndReleased(w.tables[t], w.open[c].parts[t].writes, w'.tables[t]))
         && w'.open == w.open - {c}
         && w'.history == w.history + [Commit(w.open[c].began, w.clock, map t | t in w.tables :: w.tables[t].seqno, KeysOf(w.open[c]))]
       case CommitConflict(c) =>
         && c in w.open && Conflict(w.tables, w.open[c])
         && w'.tables == w.tables && w'.open == w.open && w'.history == w.history
       case CommitBroken(c, applied) =>
         && c in w.open && w.open[c].parts.Keys == w.tables.Keys && !Conflict(w.tables, w.open[c])
         && (forall t :: t in w.tables ==>
               if t in applied then
                 Encodable(w.open[c].parts[t].writes) && Wrote(w.tables[t], w.open[c].parts[t].writes, w'.tables[t])
               else w'.tables[t] == w.tables[t])
         && w'.open == w.open && w'.history == w.history
       case Rollback(c) =>
         && c in w.open && w.open[c].parts.Keys == w.tables.Keys
         && (forall t :: t in w.tables ==>
               RestoredAndReleased(w.tables[t], w.open[c].parts[t].image, w'.tables[t]))
         && w'.open == w.open - {c}
         && w'.history == w.history
       case AutoWrite(t, rs) =>
         && t in w.tables
         && w'.tables == w.tables[t := AppendAll(w.tables[t], rs)]
         && w'.open == w.open && w'.history == w.history
       case Compact(t, listing) =>
         && t in w.tables && Lists(listing, w.tables[t].live)
         && w'.tables == w.tables[t := Serve(w.tables[t], Compacting(listing))]
         && w'.open == w.open && w'.history == w.history
  }

  ghost predicate Init(w: World)
  {
    w.open == map[] && w.history == [] && forall t :: t in w.tables ==> Agree(w.tables[t]) && w.tables[t].snapshots == 0
  }

  ghost predicate Reaches(w: World, steps: seq<Step>, w': World)
    decreases |steps|
  {
    if steps == [] then w' == w
    else exists mid :: Next(w, steps[0], mid) && Reaches(mid, steps[1..], w')
  }

  // ------------------------------------------------------- one table moves on

  /** Later state of one table: reads at old snapshots are as before, changed keys stay changed. */
  ghost predicate MovesOn(db: Db, db': Db)
  {
    && Agree(db) && Agree(db')
    && db.seqno <= db'.seqno
    && (forall s: nat, k :: s <= db.seqno ==> GetAt(db'.versions, s, k) == GetAt(db.versions, s, k))
    && (forall s: nat, k :: s <= db.seqno && ChangedSince(db.versions, s, k) ==> ChangedSince(db'.versions, s, k))
  }

  lemma {:induction false} AppendMovesOn(db: Db, rs: seq<Rec>)
    requires Agree(db)
    ensures MovesOn(db, AppendAll(db, rs)) && AppendAll(db, rs).snapshots == db.snapshots
  {
    hide GetAt, ChangedSince, LiveOf, Newest, AppendAll, Ordered;
    AppendAllAgrees(db, rs);
    var db' := AppendAll(db, rs);
    forall s: nat, k | s <= db.seqno
      ensures GetAt(db'.versions, s, k) == GetAt(db.versions, s, k)
      ensures ChangedSince(db.versions, s, k) ==> ChangedSince(db'.versions, s, k)
    {
      AppendAllBehindSnapshot(db, rs, s, k);
    }
    AppendAllBehindSnapshot(db, rs, 0, []);
    AppendAllSnapshots(db, rs);
  }

  lemma MovesOnTrans(a: Db, b: Db, c: Db)
    requires MovesOn(a, b) && MovesOn(b, c)
    ensures MovesOn(a, c)
  {
    hide GetAt, ChangedSince, Agree;
  }

  /** Requests that leave versions, index and sequence number alone. */
  lemma ServeMovesOn(db: Db, q: Request)
    requires Agree(db) && Enabled(db, q) && !q.Writing?
    ensures MovesOn(db, Serve(db, q)) && Serve(db, q).seqno == db.seqno && Serve(db, q).live == db.live
  {
    hide GetAt, ChangedSince, Agree, Enabled, AppendAll;
    ServeAgrees(db, q);
  }

  /** What a read of `k` gives after a record for it. */
  function After(r: Rec): Option<bytes>
  {
    if r.flag == LIVE then Some(r.value) else None
  }

  /** With each key written once, a key reads as its record says, or as before. */
  lemma {:induction false} WrittenOnce(db: Db, rs: seq<Rec>, k: bytes)
    requires forall i, j :: 0 <= i < j < |rs| ==> rs[i].key != rs[j].key
    ensures forall j :: 0 <= j < |rs| && rs[j].key == k ==> Lookup(AppendAll(db, rs).live, k) == After(rs[j])
    ensures !Writes(rs, k) ==> Lookup(AppendAll(db, rs).live, k) == Lookup(db.live, k)
  {
    if rs != [] {
      var n := |rs| - 1;
      WrittenOnce(db, rs[..n], k);
      assert rs == rs[..n] + [rs[n]];
      WritesPush(rs[..n], rs[n], k);
      forall j | 0 <= j < |rs| && rs[j].key == k ensures Lookup(AppendAll(db, rs).live, k) == After(rs[j]) {
        if j < n { assert rs[..n][j] == rs[j] && rs[n].key != k; }
      }
    }
  }

  /** Rows after a write set: staged rows and deletions over the rows before. */
  function Overlay(base: map<bytes, bytes>, writes: map<bytes, Staged>): map<bytes, bytes>
  {
    map k | k in base.Keys + writes.Keys && (k in writes ==> writes[k].Row?)
      :: if k in writes then writes[k].value else base[k]
  }

  lemma {:induction false} EnumeratedLive(db: Db, rs: seq<Rec>, writes: map<bytes, Staged>)
    requires Enumerates(rs, writes)
    ensures AppendAll(db, rs).live == Overlay(db.live, writes)
    ensures forall k :: k in writes ==> Writes(rs, k)
  {
    hide AppendAll;
    var a, b := AppendAll(db, rs).live, Overlay(db.live, writes);
    forall k ensures Lookup(a, k) == Lookup(b, k) && (k in writes ==> Writes(rs, k)) {
      WrittenOnce(db, rs, k);
      if k in writes {
        var j :| 0 <= j < |rs| && rs[j] == RecFor(k, writes[k]);
        assert Lookup(a, k) == After(rs[j]);
      }
    }
    LookupExtensional(a, b);
  }

  lemma LookupExtensional(a: map<bytes, bytes>, b: map<bytes, bytes>)
    requires forall k :: Lookup(a, k) == Lookup(b, k)
    ensures a == b
  {
    assert forall k :: Lookup(a, k).Some? <==> k in a;
    assert forall k :: Lookup(b, k).Some? <==> k in b;
    forall k | k in a ensures k in b && a[k] == b[k] {
      assert Lookup(a, k) == Lookup(b, k);
    }
    forall k | k in b ensures k in a {
      assert Lookup(a, k) == Lookup(b, k);
    }
  }

  /** A commit's effect on one table. */
  lemma {:induction false} WroteFacts(db: Db, writes: map<bytes, Staged>, db': Db)
    requires Agree(db) && Wrote(db, writes, db')
    ensures MovesOn(db, db') && db'.snapshots == db.snapshots && db'.live == Overlay(db.live, writes)
    ensures forall k :: k in writes ==> ChangedSince(db'.versions, db.seqno, k)
  {
    hide AppendAll, GetAt, ChangedSince, Agree, MovesOn, Overlay;
    var rs :| Enumerates(rs, writes) && db' == AppendAll(db, rs);
    AppendMovesOn(db, rs);
    EnumeratedLive(db, rs, writes);
    forall k | k in writes ensures ChangedSince(db'.versions, db.seqno, k) {
      AgreeIsOrdered(db);
      AppendAllBehindSnapshot(db, rs, db.seqno, k);
    }
  }

  lemma AgreeIsOrdered(db: Db)
    requires Agree(db)
    ensures Ordered(db.versions, db.seqno)
  {
  }

  /** Restoring an image leaves exactly the image. */
  lemma {:induction false} RestoredFacts(db: Db, image: map<bytes, bytes>, db': Db)
    requires Agree(db) && Restored(db, image, db')
    ensures MovesOn(db, db') && db'.snapshots == db.snapshots && db'.live == image
  {
    hide AppendAll, GetAt, ChangedSince, Agree, MovesOn, Enumerates, Overlay;
    var gone: seq<Rec>, back: seq<Rec> :|
      && Enumerates(gone, map k | k in db.live :: Deleted)
      && Enumerates(back, map k | k in image :: Row(image[k], true))
      && db' == AppendAll(AppendAll(db, gone), back);
    var mid := AppendAll(db, gone);
    AppendMovesOn(db, gone);
    MovesOnAgree(db, mid);
    AppendMovesOn(mid, back);
    MovesOnTrans(db, mid, db');
    EnumeratedLive(db, gone, map k | k in db.live :: Deleted);
    EnumeratedLive(mid, back, map k | k in image :: Row(image[k], true));
    OverlayDeleted(db.live);
    OverlayImage(image);
  }

  lemma OverlayDeleted(live: map<bytes, bytes>)
    ensures Overlay(live, map k | k in live :: Deleted) == map[]
  {
  }

  lemma OverlayImage(image: map<bytes, bytes>)
    ensures Overlay(map[], map k | k in image :: Row(image[k], true)) == image
  {
  }

  lemma MovesOnAgree(db: Db, db': Db)
    requires MovesOn(db, db')
    ensures Agree(db) && Agree(db')
  {
  }

  // -------------------------------------------------------------- invariant

  /** The snapshot of a part still shows the image taken at BEGIN. */
  ghost predicate PartOk(db: Db, part: Part)
  {
    part.readAt <= db.seqno && forall k :: GetAt(db.versions, part.readAt, k) == Lookup(part.image, k)
  }

  ghost predicate TxOk(w: World, tx: Tx)
  {
    && tx.began < w.clock
    && tx.parts.Keys == w.tables.Keys
    && forall t :: t in w.tables ==> PartOk(w.tables[t], tx.parts[t])
  }

  /** A commit is in the past, and every key it wrote has had a newer version ever since. */
  ghost predicate CommitOk(w: World, e: Commit)
  {
    && e.began < e.at < w.clock
    && e.before.Keys == w.tables.Keys
    && (forall t :: t in w.tables ==> e.before[t] <= w.tables[t].seqno)
    && forall p :: p in e.keys ==> p.0 in w.tables && ChangedSince(w.tables[p.0].versions, e.before[p.0], p.1)
  }

  /** A transaction that was open during a commit took its snapshots before it. */
  ghost predicate SawBefore(tx: Tx, e: Commit)
  {
    && e.at != tx.began
    && (e.at > tx.began ==> forall t :: t in tx.parts && t in e.before ==> tx.parts[t].readAt <= e.before[t])
  }

  /** First committer wins: of two commits that wrote a common key, the later one began after the earlier one committed. */
  ghost predicate Wins(history: seq<Commit>)
  {
    forall i, j :: 0 <= i < j < |history| && history[i].keys * history[j].keys != {} ==>
      history[i].at < history[j].began
  }

  ghost predicate Inv(w: World)
  {
    && (forall t :: t in w.tables ==> Agree(w.tables[t]) && w.tables[t].snapshots == |w.open|)
    && (forall c :: c in w.open ==> TxOk(w, w.open[c]))
    && (forall i :: 0 <= i < |w.history| ==> CommitOk(w, w.history[i]))
    && (forall c, i :: c in w.open && 0 <= i < |w.history| ==> SawBefore(w.open[c], w.history[i]))
    && Wins(w.history)
  }

  ghost predicate AllMoveOn(w: World, w': World)
  {
    && w'.tables.Keys == w.tables.Keys && w.clock < w'.clock
    && forall t :: t in w.tables ==> MovesOn(w.tables[t], w'.tables[t])
  }

  lemma {:induction false} TxStaysOk(w: World, w': World, tx: Tx)
    requires AllMoveOn(w, w') && TxOk(w, tx)
    ensures TxOk(w', tx)
  {
    hide Agree, GetAt, ChangedSince;
    forall t | t in w'.tables ensures PartOk(w'.tables[t], tx.parts[t]) {
      assert MovesOn(w.tables[t], w'.tables[t]) && PartOk(w.tables[t], tx.parts[t]);
    }
  }

  lemma {:induction false} CommitStaysOk(w: World, w': World, e: Commit)
    requires AllMoveOn(w, w') && CommitOk(w, e)
    ensures CommitOk(w', e)
  {
    hide Agree, GetAt, ChangedSince;
  }

  /** How every step changes the tables. */
  lemma {:induction false} NextMovesOn(w: World, step: Step, w': World)
    requires Inv(w) && Next(w, step, w')
    ensures AllMoveOn(w, w')
  {
    hide WroteAndReleased, RestoredAndReleased, Agree, GetAt, ChangedSince, MovesOn, Wrote, Restored, AppendAll,
         Serve, Enabled, Conflict, KeysOf, TxOk, CommitOk, SawBefore, Wins, Encodable, Lists;
    forall t | t in w.tables ensures MovesOn(w.tables[t], w'.tables[t]) {
      TableMovesOn(w, step, w', t);
    }
  }

  lemma MovesOnRefl(db: Db)
    requires Agree(db)
    ensures MovesOn(db, db)
  {
  }

  lemma {:induction false} ReleaseMovesOn(a: Db, b: Db)
    requires MovesOn(a, b)
    ensures MovesOn(a, Release(b)) && Release(b).live == b.live && Release(b).versions == b.versions
    ensures Release(b).snapshots == if b.snapshots > 0 then b.snapshots - 1 else 0
  {
    hide Agree, GetAt, ChangedSince, AppendAll;
    ServeAgrees(b, Releasing);
  }

  lemma {:induction false} TableMovesOn(w: World, step: Step, w': World, t: Name)
    requires Inv(w) && Next(w, step, w') && t in w.tables
    ensures MovesOn(w.tables[t], w'.tables[t])
  {
    hide Agree, GetAt, ChangedSince, MovesOn, Wrote, Restored, AppendAll, Serve, Conflict, KeysOf, TxOk, CommitOk,
         SawBefore, Wins, Encodable, Lists, Release;
    var db := w.tables[t];
    MovesOnRefl(db);
    match step
    case Begin(c) => ServeMovesOn(db, Beginning);
    case CommitDone(c) =>
      var mid :| Wrote(db, w.open[c].parts[t].writes, mid) && w'.tables[t] == Release(mid);
      WroteFacts(db, w.open[c].parts[t].writes, mid);
      ReleaseMovesOn(db, mid);
    case CommitBroken(c, applied) =>
      if t in applied { WroteFacts(db, w.open[c].parts[t].writes, w'.tables[t]); }
    case Rollback(c) =>
      var mid :| Restored(db, w.open[c].parts[t].image, mid) && w'.tables[t] == Release(mid);
      RestoredFacts(db, w.open[c].parts[t].image, mid);
      ReleaseMovesOn(db, mid);
    case AutoWrite(t', rs) => AppendMovesOn(db, rs);
    case Compact(t', listing) => if t' == t { ServeMovesOn(db, Compacting(listing)); }
    case _ =>
  }

  lemma {:induction false} NewPartOk(db: Db)
    requires Agree(db)
    ensures PartOk(Serve(db, Beginning), Part(db.seqno, db.live, map[]))
  {
    hide GetAt, Agree;
    forall k ensures GetAt(db.versions, db.seqno, k) == Lookup(db.live, k) {
      SnapshotNow(db, k);
    }
  }

  lemma {:induction false} NewTxOk(w: World, c: Client, w': World)
    requires Inv(w) && Next(w, Begin(c), w')
    ensures TxOk(w', w'.open[c])
  {
    hide WroteAndReleased, RestoredAndReleased, PartOk, Serve, Agree, Conflict, KeysOf, Wins, CommitOk, SawBefore,
         Encodable, Wrote, AppendAll, Lists;
    forall t | t in w'.tables ensures PartOk(w'.tables[t], w'.open[c].parts[t]) {
      NewPartOk(w.tables[t]);
    }
  }

  lemma {:induction false} StagedTxOk(w: World, tx: Tx, t: Name, k: bytes, write: Staged)
    requires TxOk(w, tx) && t in tx.parts
    ensures TxOk(w, tx.(parts := tx.parts[t := tx.parts[t].(writes := tx.parts[t].writes[k := write])]))
  {
    hide GetAt;
  }

  lemma {:induction false} OpenStaysOk(w: World, step: Step, w': World, c: Client)
    requires Inv(w) && Next(w, step, w') && AllMoveOn(w, w') && c in w'.open
    ensures TxOk(w', w'.open[c])
  {
    hide WroteAndReleased, RestoredAndReleased, Agree, GetAt, ChangedSince, MovesOn, Wrote, Restored, AppendAll,
         Serve, Conflict, KeysOf, TxOk, CommitOk, SawBefore, Wins, Encodable, Lists, AllMoveOn;
    if step.Begin? && step.client == c {
      NewTxOk(w, c, w');
    } else {
      TxStaysOk(w, w', w.open[c]);
      if step.Stage? && step.client == c {
        StagedTxOk(w', w.open[c], step.table, step.key, step.write);
      }
    }
  }

  /** What a successful commit did to one table. */
  lemma {:induction false} CommittedTable(w: World, c: Client, w': World, t: Name)
    requires Inv(w) && Next(w, CommitDone(c), w') && t in w.tables
    ensures c in w.open && t in w.open[c].parts && w.tables[t].seqno <= w'.tables[t].seqno
    ensures forall k :: k in w.open[c].parts[t].writes ==> ChangedSince(w'.tables[t].versions, w.tables[t].seqno, k)
    ensures w'.tables[t].live == Overlay(w.tables[t].live, w.open[c].parts[t].writes)
    ensures w'.tables[t].snapshots == if w.tables[t].snapshots > 0 then w.tables[t].snapshots - 1 else 0
  {
    hide Agree, GetAt, ChangedSince, MovesOn, Restored, AppendAll, Conflict, Wins, Encodable, SawBefore, TxOk,
         CommitOk, Wrote, Release, Overlay, KeysOf;
    var db, writes := w.tables[t], w.open[c].parts[t].writes;
    var mid :| Wrote(db, writes, mid) && w'.tables[t] == Release(mid);
    WroteFacts(db, writes, mid);
    ReleaseMovesOn(db, mid);
    SeqnoGrows(db, w'.tables[t]);
  }

  lemma KeysOfMember(tx: Tx, p: (Name, bytes))
    ensures p in KeysOf(tx) <==> p.0 in tx.parts && p.1 in tx.parts[p.0].writes
  {
    assert p == (p.0, p.1);
  }

  /** The entry a successful commit adds to the history. */
  lemma {:induction false} NewCommitEntry(w: World, c: Client, w': World)
    requires Inv(w) && Next(w, CommitDone(c), w')
    ensures |w'.history| == |w.history| + 1 && c in w.open && w'.clock == w.clock + 1 && w'.tables.Keys == w.tables.Keys
    ensures var e := w'.history[|w.history|];
            && e.began == w.open[c].began < e.at == w.clock && e.keys == KeysOf(w.open[c])
            && e.before.Keys == w.tables.Keys && w.open[c].parts.Keys == w.tables.Keys
            && forall t :: t in w.tables ==> e.before[t] == w.tables[t].seqno
  {
    hide CommitOk, WroteAndReleased, RestoredAndReleased, Agree, GetAt, ChangedSince, MovesOn, Conflict, Wins,
         Encodable, SawBefore, PartOk, KeysOf;
    assert TxOk(w, w.open[c]);
  }

  lemma {:induction false} NewCommitOk(w: World, c: Client, w': World)
    requires Inv(w) && Next(w, CommitDone(c), w')
    ensures |w'.history| == |w.history| + 1 && CommitOk(w', w'.history[|w.history|])
  {
    hide Inv, Next, CommitOk, ChangedSince, KeysOf, Overlay;
    NewCommitEntry(w, c, w');
    var tx, e := w.open[c], w'.history[|w.history|];
    forall t | t in w'.tables ensures e.before[t] <= w'.tables[t].seqno {
      CommittedTable(w, c, w', t);
    }
    forall p | p in e.keys ensures p.0 in w'.tables && ChangedSince(w'.tables[p.0].versions, e.before[p.0], p.1) {
      KeysOfMember(tx, p);
      CommittedTable(w, c, w', p.0);
    }
    MakeCommitOk(w', e);
  }

  lemma MakeCommitOk(w: World, e: Commit)
    requires e.began < e.at < w.clock && e.before.Keys == w.tables.Keys
    requires forall t :: t in w.tables ==> e.before[t] <= w.tables[t].seqno
    requires forall p :: p in e.keys ==> p.0 in w.tables && ChangedSince(w.tables[p.0].versions, e.before[p.0], p.1)
    ensures CommitOk(w, e)
  {
  }

  lemma SeqnoGrows(db: Db, db': Db)
    requires MovesOn(db, db')
    ensures db.seqno <= db'.seqno
  {
  }

  lemma {:induction false} HistoryStaysOk(w: World, step: Step, w': World, i: nat)
    requires Inv(w) && Next(w, step, w') && AllMoveOn(w, w') && i < |w'.history|
    ensures CommitOk(w', w'.history[i])
  {
    hide WroteAndReleased, RestoredAndReleased, Agree, GetAt, ChangedSince, MovesOn, Wrote, Restored, AppendAll,
         Serve, Conflict, KeysOf, TxOk, CommitOk, SawBefore, Wins, Encodable, Lists, AllMoveOn;
    if i < |w.history| {
      CommitStaysOk(w, w', w.history[i]);
    } else {
      NewCommitOk(w, step.client, w');
    }
  }

  /** A transaction's snapshots are no younger than the tables. */
  lemma {:induction false} ReadsBehind(w: World, tx: Tx)
    requires TxOk(w, tx)
    ensures tx.began < w.clock
    ensures forall t :: t in w.tables ==> t in tx.parts && tx.parts[t].readAt <= w.tables[t].seqno
  {
    hide Agree, GetAt, ChangedSince;
    forall t | t in w.tables ensures t in tx.parts && tx.parts[t].readAt <= w.tables[t].seqno {
      assert PartOk(w.tables[t], tx.parts[t]);
    }
  }

  lemma {:induction false} SnapshotsTaken(w: World, step: Step, w': World, c: Client, i: nat)
    requires Inv(w) && Next(w, step, w') && c in w'.open && i < |w'.history|
    ensures SawBefore(w'.open[c], w'.history[i])
  {
    hide WroteAndReleased, RestoredAndReleased, Agree, GetAt, ChangedSince, MovesOn, Wrote, Restored, AppendAll,
         Serve, Conflict, KeysOf, Wins, Encodable, Lists, PartOk, TxOk;
    if step.Begin? && step.client == c {
      assert CommitOk(w, w.history[i]);
    } else {
      assert TxOk(w, w.open[c]);
      if i < |w.history| {
        assert SawBefore(w.open[c], w.history[i]);
      } else {
        ReadsBehind(w, w.open[c]);
      }
    }
  }

  /** A commit without conflict began after every earlier commit of a common key. */
  lemma {:induction false} NewCommitWins(w: World, c: Client, i: nat, p: (Name, bytes))
    requires Inv(w) && c in w.open && !Conflict(w.tables, w.open[c])
    requires i < |w.history| && p in w.history[i].keys && p in KeysOf(w.open[c])
    ensures w.history[i].at < w.open[c].began
  {
    hide Agree, GetAt, Wins, KeysOf;
    KeysOfMember(w.open[c], p);
    var tx, e := w.open[c], w.history[i];
    assert TxOk(w, tx) && CommitOk(w, e) && SawBefore(tx, e);
    var t, k := p.0, p.1;
    assert ChangedSince(w.tables[t].versions, e.before[t], k);
    assert !ChangedSince(w.tables[t].versions, tx.parts[t].readAt, k);
  }

  lemma {:induction false} WinsStays(w: World, step: Step, w': World)
    requires Inv(w) && Next(w, step, w')
    ensures Wins(w'.history)
  {
    hide WroteAndReleased, RestoredAndReleased, Agree, GetAt, ChangedSince, MovesOn, Wrote, Restored, AppendAll,
         Serve, Conflict, KeysOf, TxOk, CommitOk, SawBefore, Encodable, Lists, Release;
    if step.CommitDone? {
      var n := |w.history|;
      forall i, j | 0 <= i < j < |w'.history| && w'.history[i].keys * w'.history[j].keys != {}
        ensures w'.history[i].at < w'.history[j].began
      {
        if j == n {
          var p :| p in w'.history[i].keys * w'.history[j].keys;
          NewCommitWins(w, step.client, i, p);
        } else {
          assert w'.history[i] == w.history[i] && w'.history[j] == w.history[j];
        }
      }
    }
  }

  /** What a successful rollback did to one table: its rows are those of the image taken at BEGIN. */
  lemma {:induction false} RolledBackTable(w: World, c: Client, w': World, t: Name)
    requires Inv(w) && Next(w, Rollback(c), w') && t in w.tables
    ensures c in w.open && t in w.open[c].parts
    ensures w'.tables[t].live == w.open[c].parts[t].image
    ensures w'.tables[t].snapshots == if w.tables[t].snapshots > 0 then w.tables[t].snapshots - 1 else 0
  {
    hide Agree, GetAt, ChangedSince, MovesOn, Restored, AppendAll, Conflict, Wins, Encodable, SawBefore, TxOk,
         CommitOk, Wrote, Release;
    var db, image := w.tables[t], w.open[c].parts[t].image;
    var mid :| Restored(db, image, mid) && w'.tables[t] == Release(mid);
    RestoredFacts(db, image, mid);
    ReleaseMovesOn(db, mid);
  }

  lemma {:induction false} SnapshotCount(w: World, step: Step, w': World, t: Name)
    requires Inv(w) && Next(w, step, w') && t in w.tables
    ensures w'.tables[t].snapshots == |w'.open|
  {
    hide Inv, Next;
    CountedBefore(w, t);
    match step
    case CommitDone(c) =>
      CommittedTable(w, c, w', t);
      ClientLeft(w, step, c, w');
    case Rollback(c) =>
      RolledBackTable(w, c, w', t);
      ClientLeft(w, step, c, w');
    case _ => SnapshotCountOpen(w, step, w', t);
  }

  lemma CountedBefore(w: World, t: Name)
    requires Inv(w) && t in w.tables
    ensures w.tables[t].snapshots == |w.open|
  {
    hide Agree, TxOk, CommitOk, SawBefore, Wins;
  }

  /** A client that commits or rolls back is gone. */
  lemma {:induction false} ClientLeft(w: World, step: Step, c: Client, w': World)
    requires Next(w, step, w') && (step == CommitDone(c) || step == Rollback(c))
    ensures c in w.open && |w'.open| == |w.open| - 1
  {
    hide WroteAndReleased, RestoredAndReleased, Wrote, AppendAll, Serve, Conflict, KeysOf, Encodable, Lists;
    OpenCount(w.open, c, w.open[c]);
  }

  lemma {:induction false} SnapshotCountOpen(w: World, step: Step, w': World, t: Name)
    requires Inv(w) && Next(w, step, w') && t in w.tables && !step.CommitDone? && !step.Rollback?
    ensures w'.tables[t].snapshots == |w'.open|
  {
    hide WroteAndReleased, RestoredAndReleased, Agree, Wrote, AppendAll, Conflict, KeysOf, TxOk, CommitOk, SawBefore,
         Wins, Encodable, Lists;
    var db := w.tables[t];
    match step
    case Begin(c) => OpenCount(w.open, c, w'.open[c]);
    case Stage(c, t', k, write) => OpenCount(w.open, c, w'.open[c]);
    case CommitBroken(c, applied) =>
      if t in applied { WroteSnapshots(db, w.open[c].parts[t].writes, w'.tables[t]); }
    case AutoWrite(t', rs) => AppendAllSnapshots(db, rs);
    case _ =>
  }

  lemma {:induction false} WroteSnapshots(db: Db, writes: map<bytes, Staged>, db': Db)
    requires Wrote(db, writes, db')
    ensures db'.snapshots == db.snapshots
  {
    hide AppendAll, Enumerates;
    var rs :| Enumerates(rs, writes) && db' == AppendAll(db, rs);
    AppendAllSnapshots(db, rs);
  }

  lemma OpenCount(open: map<Client, Tx>, c: Client, tx: Tx)
    ensures |open[c := tx]| == if c in open then |open| else |open| + 1
    ensures c in open ==> |open - {c}| == |open| - 1
  {
    assert open[c := tx].Keys == open.Keys + {c};
    assert (open - {c}).Keys == open.Keys - {c};
  }

  /** Every step keeps the invariant. */
  lemma {:induction false} NextKeepsInv(w: World, step: Step, w': World)
    requires Inv(w) && Next(w, step, w')
    ensures Inv(w')
  {
    hide Agree, GetAt, ChangedSince, MovesOn, Next, TxOk, CommitOk, SawBefore, Wins;
    NextMovesOn(w, step, w');
    forall t | t in w'.tables ensures Agree(w'.tables[t]) && w'.tables[t].snapshots == |w'.open| {
      MovesOnAgree(w.tables[t], w'.tables[t]);
      SnapshotCount(w, step, w', t);
    }
    forall c | c in w'.open ensures TxOk(w', w'.open[c]) {
      OpenStaysOk(w, step, w', c);
    }
    forall i | 0 <= i < |w'.history| ensures CommitOk(w', w'.history[i]) {
      HistoryStaysOk(w, step, w', i);
    }
    forall c, i | c in w'.open && 0 <= i < |w'.history| ensures SawBefore(w'.open[c], w'.history[i]) {
      SnapshotsTaken(w, step, w', c, i);
    }
    WinsStays(w, step, w');
  }

  lemma {:induction false} ReachesInv(w: World, steps: seq<Step>, w': World)
    requires Inv(w) && Reaches(w, steps, w')
    ensures Inv(w')
    decreases |steps|
  {
    hide Inv, Next;
    if steps != [] {
      var mid :| Next(w, steps[0], mid) && Reaches(mid, steps[1..], w');
      NextKeepsInv(w, steps[0], mid);
      ReachesInv(mid, steps[1..], w');
    }
  }

  lemma InitInv(w: World)
    requires Init(w)
    ensures Inv(w)
  {
  }

  // --------------------------------------------------------------- theorems

  /**
   * First committer wins, over every run of any number of clients: if two
   * transactions both committed a write to one key of one table, the later one
   * began after the earlier one had committed.
   */
  lemma {:induction false} FirstCommitterWins(w0: World, steps: seq<Step>, w: World)
    requires Init(w0) && Reaches(w0, steps, w)
    ensures Wins(w.history)
  {
    hide Init, Reaches, Wins;
    InitInv(w0);
    ReachesInv(w0, steps, w);
  }

  /** A key without a newer version reads the same at the snapshot and now. */
  lemma {:induction false} UnchangedReadsNow(db: Db, s: nat, k: bytes)
    requires Agree(db) && !ChangedSince(db.versions, s, k)
    ensures GetAt(db.versions, s, k) == Lookup(db.live, k)
  {
    hide LiveOf;
    if k in db.versions && |db.versions[k]| > 0 {
      assert k in Newest(db.versions) <==> db.versions[k][|db.versions[k]| - 1].found;
    } else {
      assert k !in Newest(db.versions);
    }
  }

  /** When a commit succeeds, what it replaces under each written key is what its snapshot showed. */
  lemma {:induction false} CommitReplacesWhatItSaw(w0: World, steps: seq<Step>, w: World, c: Client, w': World, t: Name, k: bytes)
    requires Init(w0) && Reaches(w0, steps, w) && Next(w, CommitDone(c), w')
    requires t in w.tables && t in w.open[c].parts && k in w.open[c].parts[t].writes
    ensures var part := w.open[c].parts[t];
            && Lookup(w.tables[t].live, k) == GetAt(w.tables[t].versions, part.readAt, k) == Lookup(part.image, k)
            && w'.tables[t].live == Overlay(w.tables[t].live, part.writes)
  {
    hide Init, Reaches, Wins, Agree, GetAt, ChangedSince, WroteAndReleased, RestoredAndReleased, KeysOf, CommitOk,
         SawBefore, Overlay;
    InitInv(w0);
    ReachesInv(w0, steps, w);
    CommittedTable(w, c, w', t);
    var part := w.open[c].parts[t];
    assert TxOk(w, w.open[c]) && PartOk(w.tables[t], part);
    assert !ChangedSince(w.tables[t].versions, part.readAt, k);
    UnchangedReadsNow(w.tables[t], part.readAt, k);
  }

  /** The rows of a table visible at a snapshot. */
  function RowsAt(versions: Versions, s: nat): map<bytes, bytes>
  {
    map k | k in versions && GetAt(versions, s, k).Some? :: GetAt(versions, s, k).value
  }

  /** The rows a statement inside the transaction sees. */
  function TxRows(db: Db, part: Part): map<bytes, bytes>
  {
    Overlay(RowsAt(db.versions, part.readAt), part.writes)
  }

  lemma {:induction false} RowsAtImage(db: Db, part: Part)
    requires PartOk(db, part)
    ensures RowsAt(db.versions, part.readAt) == part.image
  {
    hide VisibleAt;
    var a := RowsAt(db.versions, part.readAt);
    forall k ensures Lookup(a, k) == Lookup(part.image, k) {
      assert GetAt(db.versions, part.readAt, k) == Lookup(part.image, k);
      if k !in db.versions { NoVersions(db.versions, part.readAt, k); }
    }
    LookupExtensional(a, part.image);
  }

  lemma NoVersions(versions: Versions, s: nat, k: bytes)
    requires k !in versions
    ensures GetAt(versions, s, k) == None
  {
  }

  /** As long as a transaction is open its snapshots and images stay as they were at BEGIN. */
  lemma {:induction false} OpenKeepsImages(w: World, steps: seq<Step>, w': World, c: Client)
    requires Inv(w) && Reaches(w, steps, w') && c in w'.open && w'.open[c].began < w.clock
    ensures c in w.open && w.open[c].began == w'.open[c].began
    ensures w'.open[c].parts.Keys == w.open[c].parts.Keys == w.tables.Keys
    ensures forall t :: t in w.tables ==>
              w'.open[c].parts[t].readAt == w.open[c].parts[t].readAt && w'.open[c].parts[t].image == w.open[c].parts[t].image
    decreases |steps|
  {
    hide Agree, GetAt, ChangedSince, WroteAndReleased, RestoredAndReleased, KeysOf, CommitOk, SawBefore, Wins,
         Conflict, PartOk, Encodable, Wrote, AppendAll, Serve, Lists;
    if steps == [] {
      assert TxOk(w, w.open[c]);
    } else {
      var mid :| Next(w, steps[0], mid) && Reaches(mid, steps[1..], w');
      NextKeepsInv(w, steps[0], mid);
      OpenKeepsImages(mid, steps[1..], w', c);
      StepKeepsImages(w, steps[0], mid, c);
    }
  }

  lemma {:induction false} StepKeepsImages(w: World, step: Step, w': World, c: Client)
    requires Inv(w) && Next(w, step, w') && c in w'.open && w'.open[c].began < w.clock
    ensures c in w.open && w.open[c].began == w'.open[c].began
    ensures w'.open[c].parts.Keys == w.open[c].parts.Keys == w.tables.Keys == w'.tables.Keys
    ensures forall t :: t in w.tables ==>
              w'.open[c].parts[t].readAt == w.open[c].parts[t].readAt && w'.open[c].parts[t].image == w.open[c].parts[t].image
  {
    hide Inv, WroteAndReleased, RestoredAndReleased, KeysOf, Conflict, Encodable, Wrote, AppendAll, Serve, Lists;
    assert c in w.open;
    OpenTables(w, c);
  }

  lemma {:induction false} OpenTables(w: World, c: Client)
    requires Inv(w) && c in w.open
    ensures w.open[c].parts.Keys == w.tables.Keys && w.open[c].began < w.clock
  {
    hide PartOk, Agree, CommitOk, SawBefore, Wins;
    assert TxOk(w, w.open[c]);
  }

  lemma {:induction false} BeginImages(w: World, c: Client, w': World, t: Name)
    requires Next(w, Begin(c), w') && t in w.tables
    ensures t in w'.tables && c in w'.open && w'.clock == w.clock + 1
    ensures t in w'.open[c].parts && w'.open[c].parts[t].image == w.tables[t].live
  {
    hide Serve, Conflict, Encodable, WroteAndReleased, RestoredAndReleased, KeysOf, Wrote, AppendAll, Lists;
  }

  lemma {:induction false} OpenPart(w: World, c: Client, t: Name)
    requires Inv(w) && c in w.open && t in w.open[c].parts
    ensures t in w.tables && PartOk(w.tables[t], w.open[c].parts[t])
  {
    hide PartOk, Agree, CommitOk, SawBefore, Wins;
    assert TxOk(w, w.open[c]);
  }

  /**
   * Transaction reads: whatever other clients commit, write or roll back
   * meanwhile, an open transaction sees exactly the rows that were live at its
   * BEGIN, overlaid with its own staged writes and deletions.
   */
  lemma {:induction false} TransactionReads(w0: World, before: seq<Step>, w: World, c: Client, w1: World, steps: seq<Step>, w2: World, t: Name)
    requires Init(w0) && Reaches(w0, before, w) && Next(w, Begin(c), w1) && Reaches(w1, steps, w2)
    requires t in w.tables && c in w2.open && w2.open[c].began == w.clock
    ensures t in w2.tables && t in w2.open[c].parts
    ensures TxRows(w2.tables[t], w2.open[c].parts[t]) == Overlay(w.tables[t].live, w2.open[c].parts[t].writes)
  {
    hide Init, Reaches, Next, Inv, PartOk, RowsAt, Overlay;
    InitInv(w0);
    ReachesInv(w0, before, w);
    NextKeepsInv(w, Begin(c), w1);
    ReachesInv(w1, steps, w2);
    BeginImages(w, c, w1, t);
    OpenKeepsImages(w1, steps, w2, c);
    OpenPart(w2, c, t);
    RowsAtImage(w2.tables[t], w2.open[c].parts[t]);
  }

  /** A successful ROLLBACK leaves each table with exactly the rows live at the transaction's BEGIN. */
  lemma {:induction false} RollbackRestoresBegin(w0: World, before: seq<Step>, w: World, c: Client, w1: World, steps: seq<Step>, w2: World, w3: World, t: Name)
    requires Init(w0) && Reaches(w0, before, w) && Next(w, Begin(c), w1) && Reaches(w1, steps, w2)
    requires t in w.tables && c in w2.open && w2.open[c].began == w.clock && Next(w2, Rollback(c), w3)
    ensures t in w3.tables && w3.tables[t].live == w.tables[t].live
  {
    hide Init, Reaches, Agree, GetAt, ChangedSince, KeysOf, CommitOk, SawBefore, Wins, PartOk, Serve,
         WroteAndReleased, RestoredAndReleased;
    InitInv(w0);
    ReachesInv(w0, before, w);
    NextKeepsInv(w, Begin(c), w1);
    ReachesInv(w1, steps, w2);
    OpenKeepsImages(w1, steps, w2, c);
    assert TxOk(w2, w2.open[c]);
    RolledBackTable(w2, c, w3, t);
  }

  /**
   * In every run, a ROLLBACK leaves a key as it finds it exactly when the
   * transaction's snapshot still reads it so; in particular when the key has
   * not changed since the snapshot.
   */
  lemma {:induction false} RollbackLeavesKey(w0: World, steps: seq<Step>, w: World, c: Client, w': World, t: Name, k: bytes)
    requires Init(w0) && Reaches(w0, steps, w) && Next(w, Rollback(c), w') && t in w.tables
    ensures t in w'.tables && c in w.open && t in w.open[c].parts
    ensures var db, s := w.tables[t], w.open[c].parts[t].readAt;
            && (Lookup(w'.tables[t].live, k) == Lookup(db.live, k) <==> GetAt(db.versions, s, k) == Lookup(db.live, k))
            && (!ChangedSince(db.versions, s, k) ==> Lookup(w'.tables[t].live, k) == Lookup(db.live, k))
  {
    hide Init, Reaches, Inv, Next, GetAt, ChangedSince, Agree;
    InitInv(w0);
    ReachesInv(w0, steps, w);
    RolledBackTable(w, c, w', t);
    OpenPart(w, c, t);
    SameTables(w, Rollback(c), w');
    TableAgrees(w, t);
    if !ChangedSince(w.tables[t].versions, w.open[c].parts[t].readAt, k) {
      UnchangedReadsNow(w.tables[t], w.open[c].parts[t].readAt, k);
    }
  }

  lemma SameTables(w: World, step: Step, w': World)
    requires Next(w, step, w')
    ensures w'.tables.Keys == w.tables.Keys
  {
  }

  lemma TableAgrees(w: World, t: Name)
    requires Inv(w) && t in w.tables
    ensures Agree(w.tables[t])
  {
    hide Agree, TxOk, CommitOk, SawBefore, Wins;
  }

  /** No table is written: clients begin, stage, are refused a commit, or compact. */
  ghost predicate Quiet(steps: seq<Step>)
  {
    forall i :: 0 <= i < |steps| ==>
      steps[i].Begin? || steps[i].Stage? || steps[i].CommitConflict? || steps[i].Compact?
  }

  lemma {:induction false} QuietStep(w: World, step: Step, w': World, c: Client, t: Name)
    requires Next(w, step, w') && Quiet([step]) && c in w.open && t in w.tables
    ensures t in w'.tables && w'.tables[t].live == w.tables[t].live
    ensures c in w'.open && w'.open[c].began == w.open[c].began
  {
    hide WroteAndReleased, RestoredAndReleased, Wrote, AppendAll, Conflict, KeysOf, Encodable, Lists;
    assert [step][0] == step;
  }

  lemma {:induction false} QuietRun(w: World, steps: seq<Step>, w': World, c: Client, t: Name)
    requires Reaches(w, steps, w') && Quiet(steps) && c in w.open && t in w.tables
    ensures t in w'.tables && w'.tables[t].live == w.tables[t].live
    ensures c in w'.open && w'.open[c].began == w.open[c].began
    decreases |steps|
  {
    hide Next;
    if steps != [] {
      var mid :| Next(w, steps[0], mid) && Reaches(mid, steps[1..], w');
      QuietStep(w, steps[0], mid, c, t);
      QuietRun(mid, steps[1..], w', c, t);
    }
  }

  /** With no other writer since BEGIN, a ROLLBACK changes no row: only the staged writes vanish. */
  lemma {:induction false} QuietRollback(w0: World, before: seq<Step>, w: World, c: Client, w1: World, steps: seq<Step>, w2: World, w3: World, t: Name)
    requires Init(w0) && Reaches(w0, before, w) && Next(w, Begin(c), w1) && Reaches(w1, steps, w2) && Quiet(steps)
    requires t in w.tables && Next(w2, Rollback(c), w3)
    ensures t in w2.tables && t in w3.tables && w3.tables[t].live == w2.tables[t].live == w.tables[t].live
  {
    hide Init, Reaches, Next, Quiet;
    BeginImages(w, c, w1, t);
    BeginClock(w, c, w1, t);
    QuietRun(w1, steps, w2, c, t);
    RollbackRestoresBegin(w0, before, w, c, w1, steps, w2, w3, t);
  }

  lemma {:induction false} BeginClock(w: World, c: Client, w': World, t: Name)
    requires Next(w, Begin(c), w') && t in w.tables
    ensures c in w'.open && w'.open[c].began == w.clock && t in w'.tables && w'.tables[t].live == w.tables[t].live
  {
    hide AppendAll, Conflict, Encodable, WroteAndReleased, RestoredAndReleased, KeysOf, Wrote, Lists;
  }

  /**
   * ROLLBACK restores the whole image, so it also undoes what others wrote
   * since BEGIN: a run in which an acknowledged write of another client is gone
   * after a rollback.
   */
  lemma {:induction false} RollbackErasesOthers(k: bytes, v: bytes) returns (w0: World, w: World)
    ensures Init(w0) && Reaches(w0, [Begin(0), AutoWrite(Name("t"), [Rec(LIVE, k, v)]), Rollback(0)], w)
    ensures Name("t") in w.tables && k !in w.tables[Name("t")].live
  {
    hide Next, Reaches, Agree, AppendAll;
    EmptyAgrees();
    var rs := [Rec(LIVE, k, v)];
    w0 := World(0, map[Name("t") := EMPTY], map[], []);
    var w1 := FirstBegins(w0);
    var w2 := SomeoneWrites(w1, k, v);
    w := FirstRollsBack(w2, k);
    ThreeSteps(w0, Begin(0), w1, AutoWrite(Name("t"), rs), w2, Rollback(0), w);
  }

  lemma FirstBegins(w: World) returns (w': World)
    requires w == World(0, map[Name("t") := EMPTY], map[], [])
    ensures Next(w, Begin(0), w') && 0 in w'.open && w'.open.Keys == {0} && w'.history == []
    ensures w'.tables == map[Name("t") := EMPTY.(snapshots := 1)] && w'.open[0].parts == map[Name("t") := Part(0, map[], map[])]
  {
    var tx := Tx(0, map t | t in w.tables :: Part(w.tables[t].seqno, w.tables[t].live, map[]));
    w' := World(1, map[Name("t") := EMPTY.(snapshots := 1)], w.open[0 := tx], []);
  }

  lemma SomeoneWrites(w: World, k: bytes, v: bytes) returns (w': World)
    requires w.tables == map[Name("t") := EMPTY.(snapshots := 1)]
    ensures Next(w, AutoWrite(Name("t"), [Rec(LIVE, k, v)]), w') && w'.open == w.open
    ensures w'.tables.Keys == {Name("t")} && w'.tables[Name("t")].live == map[k := v]
  {
    var db, rs := w.tables[Name("t")], [Rec(LIVE, k, v)];
    assert rs[..0] == [];
    assert AppendAll(db, rs) == StoreSpec.Append(AppendAll(db, []), rs[0]);
    w' := w.(clock := w.clock + 1, tables := w.tables[Name("t") := AppendAll(db, rs)]);
  }

  /** Rolling back to an empty image deletes the only row. */
  lemma {:induction false} RestoredEmpty(db: Db, k: bytes) returns (db': Db)
    requires db.live.Keys == {k}
    ensures RestoredAndReleased(db, map[], db') && k !in db'.live
  {
    var gone, back: seq<Rec> := [Rec(TOMBSTONE, k, [])], [];
    assert gone[..0] == [];
    assert AppendAll(db, gone) == StoreSpec.Append(AppendAll(db, []), gone[0]);
    var mid := AppendAll(AppendAll(db, gone), back);
    assert Enumerates(gone, map x | x in db.live :: Deleted) by { assert gone[0] == RecFor(k, Deleted); }
    assert Restored(db, map[], mid);
    db' := Release(mid);
  }

  lemma {:induction false} FirstRollsBack(w: World, k: bytes) returns (w': World)
    requires 0 in w.open && w.open[0].parts == map[Name("t") := Part(0, map[], map[])]
    requires w.tables.Keys == {Name("t")} && w.tables[Name("t")].live.Keys == {k}
    ensures Next(w, Rollback(0), w') && Name("t") in w'.tables && k !in w'.tables[Name("t")].live
  {
    hide RestoredAndReleased, Serve, Conflict, Encodable, WroteAndReleased, KeysOf, Wrote, AppendAll, Lists;
    var db' := RestoredEmpty(w.tables[Name("t")], k);
    w' := World(w.clock + 1, map[Name("t") := db'], w.open - {0}, w.history);
  }

  lemma ThreeSteps(w0: World, s0: Step, w1: World, s1: Step, w2: World, s2: Step, w3: World)
    requires Next(w0, s0, w1) && Next(w1, s1, w2) && Next(w2, s2, w3)
    ensures Reaches(w0, [s0, s1, s2], w3)
  {
    hide Next;
    assert [s2][1..] == [] && [s1, s2][1..] == [s2] && [s0, s1, s2][1..] == [s1, s2];
    assert Reaches(w3, [], w3);
    assert Reaches(w2, [s2], w3);
    assert Reaches(w1, [s1, s2], w3);
  }

  // ---------------------------------------------- a commit checks no constraint

  /** One client stages two rows and commits them, whatever they are. */
  lemma {:induction false} TwoRowsCommitted(k1: bytes, v1: bytes, k2: bytes, v2: bytes) returns (w0: World, w: World)
    requires k1 != k2
    ensures var t := Name("t");
            && Init(w0) && w0.tables == map[t := EMPTY]
            && Reaches(w0, [Begin(0), Stage(0, t, k1, Row(v1, true)), Stage(0, t, k2, Row(v2, true)), CommitDone(0)], w)
            && t in w.tables && w.tables[t].live == map[k1 := v1, k2 := v2]
  {
    hide Next, Reaches, Agree, AppendAll;
    EmptyAgrees();
    var t := Name("t");
    w0 := World(0, map[t := EMPTY], map[], []);
    var w1 := FirstBegins(w0);
    var w2 := FirstStages(w1, k1, v1);
    var w3 := FirstStages(w2, k2, v2);
    var writes: map<bytes, Staged> := map[k1 := Row(v1, true), k2 := Row(v2, true)];
    assert w3.open[0].parts == map[t := Part(0, map[], writes)];
    w := FirstCommits(w3, writes);
    assert w.tables[t].live == map[k1 := v1, k2 := v2] by { OverlayTwo(k1, v1, k2, v2); }
    var s1, s2 := Stage(0, t, k1, Row(v1, true)), Stage(0, t, k2, Row(v2, true));
    ThreeSteps(w1, s1, w2, s2, w3, CommitDone(0), w);
    OneStepMore(w0, Begin(0), w1, [s1, s2, CommitDone(0)], w);
    assert [Begin(0)] + [s1, s2, CommitDone(0)] == [Begin(0), s1, s2, CommitDone(0)];
  }

  lemma OverlayTwo(k1: bytes, v1: bytes, k2: bytes, v2: bytes)
    ensures Overlay(map[], map[k1 := Row(v1, true), k2 := Row(v2, true)]) == map[k1 := v1, k2 := v2]
  {
  }

  lemma OneStepMore(w0: World, s: Step, w1: World, steps: seq<Step>, w2: World)
    requires Next(w0, s, w1) && Reaches(w1, steps, w2)
    ensures Reaches(w0, [s] + steps, w2)
  {
    hide Next;
    assert ([s] + steps)[1..] == steps;
  }

  lemma FirstStages(w: World, k: bytes, v: bytes) returns (w': World)
    requires 0 in w.open && Name("t") in w.open[0].parts
    ensures Next(w, Stage(0, Name("t"), k, Row(v, true)), w') && w'.tables == w.tables && w'.history == w.history
    ensures var part := w.open[0].parts[Name("t")];
            0 in w'.open && w'.open[0].parts == w.open[0].parts[Name("t") := part.(writes := part.writes[k := Row(v, true)])]
  {
    hide Conflict, Encodable, WroteAndReleased, RestoredAndReleased, KeysOf, AppendAll, Serve, Lists;
    var part := w.open[0].parts[Name("t")];
    var tx := w.open[0].(parts := w.open[0].parts[Name("t") := part.(writes := part.writes[k := Row(v, true)])]);
    w' := World(w.clock + 1, w.tables, w.open[0 := tx], w.history);
  }

  lemma {:induction false} FirstCommits(w: World, writes: map<bytes, Staged>) returns (w': World)
    requires 0 in w.open && w.open[0].parts == map[Name("t") := Part(0, map[], writes)] && Encodable(writes)
    requires w.tables == map[Name("t") := EMPTY.(snapshots := 1)]
    ensures Next(w, CommitDone(0), w') && Name("t") in w'.tables && w'.tables[Name("t")].live == Overlay(map[], writes)
  {
    hide Encodable, RestoredAndReleased, WroteAndReleased, KeysOf, AppendAll, Lists, Overlay;
    var t, db := Name("t"), EMPTY.(snapshots := 1);
    NoConflictYet(w.tables, w.open[0], writes);
    var db' := WrittenTable(db, writes);
    w' := World(w.clock + 1, map[t := db'], w.open - {0},
                w.history + [Commit(w.open[0].began, w.clock, map x | x in w.tables :: w.tables[x].seqno, KeysOf(w.open[0]))]);
  }

  lemma NoConflictYet(tables: map<Name, Db>, tx: Tx, writes: map<bytes, Staged>)
    requires tables == map[Name("t") := EMPTY.(snapshots := 1)] && tx.parts == map[Name("t") := Part(0, map[], writes)]
    ensures !Conflict(tables, tx)
  {
  }

  lemma {:induction false} WrittenTable(db: Db, writes: map<bytes, Staged>) returns (db': Db)
    ensures WroteAndReleased(db, writes, db') && db'.live == Overlay(db.live, writes)
  {
    hide AppendAll, Overlay, Enumerates;
    var rs := Enumeration(writes);
    var mid := AppendAll(db, rs);
    EnumeratedLive(db, rs, writes);
    assert Wrote(db, writes, mid);
    db' := Release(mid);
  }

  lemma {:induction false} Enumeration(writes: map<bytes, Staged>) returns (rs: seq<Rec>)
    ensures Enumerates(rs, writes)
    decreases |writes|
  {
    if writes == map[] {
      rs := [];
    } else {
      var k :| k in writes;
      var rest := Enumeration(writes - {k});
      rs := rest + [RecFor(k, writes[k])];
      assert forall x :: x in writes && x != k ==> x in writes - {k} && (writes - {k})[x] == writes[x];
    }
  }
}
