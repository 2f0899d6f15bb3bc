/**
 * The store as a value: the log of records, the live index, the version
 * chains.  Theorems over whole runs are stated here; the Store class is proved
 * to take these steps.
 */
module StoreSpec {
  import opened Common
  import opened Bytes
  import opened Page

  datatype Version = Version(seqno: nat, value: bytes, found: bool)

  type Versions = map<bytes, seq<Version>>

  datatype Db = Db(
    log: seq<Rec>,            // records along the page chain
    live: map<bytes, bytes>,  // the index
    versions: Versions,
    seqno: nat,
    snapshots: nat)

  const EMPTY: Db := Db([], map[], map[], 0, 0)

  function ChainOf(versions: Versions, k: bytes): seq<Version>
  {
    if k in versions then versions[k] else []
  }

  /** Recording one more version of the record's key. */
  function AddVersion(versions: Versions, n: nat, r: Rec): Versions
  {
    versions[r.key := ChainOf(versions, r.key) + [Version(n, r.value, r.flag == LIVE)]]
  }

  /** What one record does to the live map. */
  function Effect(live: map<bytes, bytes>, r: Rec): map<bytes, bytes>
  {
    if r.flag == LIVE then live[r.key := r.value] else live - {r.key}
  }

  function Append(db: Db, r: Rec): Db
  {
    Db(db.log + [r], Effect(db.live, r), AddVersion(db.versions, db.seqno + 1, r), db.seqno + 1, db.snapshots)
  }

  function AppendAll(db: Db, rs: seq<Rec>): Db
  {
    if rs == [] then db else Append(AppendAll(db, rs[..|rs| - 1]), rs[|rs| - 1])
  }

  lemma AppendAllNone(db: Db)
    ensures AppendAll(db, []) == db
  {
  }

  lemma AppendAllPush(db: Db, rs: seq<Rec>, r: Rec)
    ensures AppendAll(db, rs + [r]) == Append(AppendAll(db, rs), r)
  {
    assert (rs + [r])[..|rs|] == rs;
  }

  lemma AppendAllNext(db: Db, rs: seq<Rec>, i: nat)
    requires i < |rs|
    ensures AppendAll(db, rs[..i + 1]) == Append(AppendAll(db, rs[..i]), rs[i])
  {
    hide AppendAll;
    assert rs[..i + 1] == rs[..i] + [rs[i]];
    AppendAllPush(db, rs[..i], rs[i]);
  }

  lemma {:induction false} AppendAllSnapshots(db: Db, rs: seq<Rec>)
    ensures AppendAll(db, rs).snapshots == db.snapshots
  {
    if rs != [] { AppendAllSnapshots(db, rs[..|rs| - 1]); }
  }

  /** One request.  `Compacting` carries the listing of the live map that it writes. */
  datatype Request =
    | Writing(rs: seq<Rec>)         // Put, Delete and ApplyBatch
    | Compacting(listing: seq<Rec>)
    | Beginning
    | Releasing

  /** The listing has one live record for each live key. */
  predicate Lists(listing: seq<Rec>, live: map<bytes, bytes>)
  {
    && (forall i, j :: 0 <= i < j < |listing| ==> listing[i].key != listing[j].key)
    && (forall i :: 0 <= i < |listing| ==>
          listing[i].flag == LIVE && listing[i].key in live && live[listing[i].key] == listing[i].value)
    && (forall k :: k in live ==> Rec(LIVE, k, live[k]) in listing)
  }

  predicate Enabled(db: Db, q: Request)
  {
    q.Compacting? ==> Lists(q.listing, db.live)
  }

  function Serve(db: Db, q: Request): Db
  {
    match q
    case Writing(rs) => AppendAll(db, rs)
    case Compacting(listing) => if db.snapshots > 0 then db else db.(log := listing)
    case Beginning => db.(snapshots := db.snapshots + 1)
    case Releasing => if db.snapshots > 0 then db.(snapshots := db.snapshots - 1) else db
  }

  ghost predicate Runs(db: Db, qs: seq<Request>, db': Db)
    decreases |qs|
  {
    if qs == [] then db' == db
    else
      var mid := Serve(db, qs[0]);
      Enabled(db, qs[0]) && Runs(mid, qs[1..], db')
  }

  // ---------------------------------------------------- three-way agreement

  /** Folding the log. */
  function LiveOf(log: seq<Rec>): map<bytes, bytes>
  {
    if log == [] then map[] else Effect(LiveOf(log[..|log| - 1]), log[|log| - 1])
  }

  /** Each key's newest version. */
  function Newest(versions: Versions): map<bytes, bytes>
  {
    map k | k in versions && |versions[k]| > 0 && versions[k][|versions[k]| - 1].found
      :: versions[k][|versions[k]| - 1].value
  }

  ghost predicate Ordered(versions: Versions, n: nat)
  {
    forall k :: k in versions ==>
      && (forall i :: 0 <= i < |versions[k]| ==> 0 < versions[k][i].seqno <= n)
      && (forall i, j :: 0 <= i < j < |versions[k]| ==> versions[k][i].seqno < versions[k][j].seqno)
  }

  /** The three representations stand for one map, and version numbers increase along every chain. */
  ghost predicate Agree(db: Db)
  {
    LiveOf(db.log) == db.live == Newest(db.versions) && Ordered(db.versions, db.seqno)
  }

  lemma {:induction false} NewestAdd(versions: Versions, n: nat, r: Rec)
    ensures Newest(AddVersion(versions, n, r)) == Effect(Newest(versions), r)
  {
    var vs := AddVersion(versions, n, r);
    var a, b := Newest(vs), Effect(Newest(versions), r);
    assert vs[r.key][|vs[r.key]| - 1] == Version(n, r.value, r.flag == LIVE);
    forall k ensures (k in a <==> k in b) && (k in a ==> a[k] == b[k]) {
      if k != r.key { assert ChainOf(vs, k) == ChainOf(versions, k); }
    }
  }

  lemma {:induction false} OrderedAdd(versions: Versions, n: nat, r: Rec)
    requires Ordered(versions, n)
    ensures Ordered(AddVersion(versions, n + 1, r), n + 1)
  {
  }

  lemma {:induction false} LiveOfPush(log: seq<Rec>, r: Rec)
    ensures LiveOf(log + [r]) == Effect(LiveOf(log), r)
  {
    assert (log + [r])[..|log|] == log;
  }

  lemma {:induction false} AppendAgrees(db: Db, r: Rec)
    requires Agree(db)
    ensures Agree(Append(db, r))
  {
    hide LiveOf, Newest, Ordered, Effect, AddVersion;
    NewestAdd(db.versions, db.seqno + 1, r);
    OrderedAdd(db.versions, db.seqno, r);
    LiveOfPush(db.log, r);
  }

  lemma {:induction false} AppendAllAgrees(db: Db, rs: seq<Rec>)
    requires Agree(db)
    ensures Agree(AppendAll(db, rs))
  {
    hide Agree, Append;
    if rs != [] {
      AppendAllAgrees(db, rs[..|rs| - 1]);
      AppendAgrees(AppendAll(db, rs[..|rs| - 1]), rs[|rs| - 1]);
    }
  }

  /** Folding a listing of a map gives the map. */
  lemma {:induction false} LiveOfListing(listing: seq<Rec>, live: map<bytes, bytes>)
    requires Lists(listing, live)
    ensures LiveOf(listing) == live
  {
    hide LiveOf, Lists;
    assert listing[..|listing|] == listing;
    forall k ensures k in LiveOf(listing) <==> k in live
             ensures k in live ==> k in LiveOf(listing) && LiveOf(listing)[k] == live[k]
    {
      LiveOfPrefix(listing, live, |listing|, k);
      ListedLive(listing, live, k);
    }
  }

  lemma {:induction false} ListedLive(listing: seq<Rec>, live: map<bytes, bytes>, k: bytes)
    requires Lists(listing, live)
    ensures k in live <==> exists i :: 0 <= i < |listing| && listing[i].key == k
  {
    if k in live {
      var i :| 0 <= i < |listing| && listing[i] == Rec(LIVE, k, live[k]);
      assert listing[i].key == k;
    }
  }

  lemma {:induction false} LiveOfPrefix(listing: seq<Rec>, live: map<bytes, bytes>, n: nat, k: bytes)
    requires Lists(listing, live) && n <= |listing|
    ensures k in LiveOf(listing[..n]) <==> exists i :: 0 <= i < n && listing[i].key == k
    ensures k in LiveOf(listing[..n]) ==> k in live && LiveOf(listing[..n])[k] == live[k]
  {
    if n > 0 {
      LiveOfPrefix(listing, live, n - 1, k);
      var last := listing[n - 1];
      assert listing[..n][..n - 1] == listing[..n - 1];
      assert LiveOf(listing[..n]) == LiveOf(listing[..n - 1])[last.key := last.value];
    }
  }

  lemma {:induction false} ServeAgrees(db: Db, q: Request)
    requires Agree(db) && Enabled(db, q)
    ensures Agree(Serve(db, q))
  {
    hide AppendAll, LiveOf, Newest, Ordered, Lists;
    match q
    case Writing(rs) => AppendAllAgrees(db, rs);
    case Compacting(listing) => LiveOfListing(listing, db.live);
    case Beginning =>
    case Releasing =>
  }

  /** In every run the log, the index and the newest versions agree. */
  lemma {:induction false} RunAgrees(db: Db, qs: seq<Request>, db': Db)
    requires Agree(db) && Runs(db, qs, db')
    ensures Agree(db')
    decreases |qs|
  {
    hide Agree, Enabled, Serve;
    if qs != [] {
      ServeAgrees(db, qs[0]);
      RunAgrees(Serve(db, qs[0]), qs[1..], db');
    }
  }

  lemma EmptyAgrees()
    ensures Agree(EMPTY)
  {
  }

  // ------------------------------------------------------------- snapshots

  /** The newest version not younger than the snapshot. */
  function VisibleAt(chain: seq<Version>, s: nat): Option<Version>
  {
    if chain == [] then None
    else if chain[|chain| - 1].seqno <= s then Some(chain[|chain| - 1])
    else VisibleAt(chain[..|chain| - 1], s)
  }

  function GetAt(versions: Versions, s: nat, k: bytes): Option<bytes>
  {
    match VisibleAt(ChainOf(versions, k), s)
    case Some(v) => if v.found then Some(v.value) else None
    case None => None
  }

  predicate ChangedSince(versions: Versions, s: nat, k: bytes)
  {
    var chain := ChainOf(versions, k);
    |chain| > 0 && chain[|chain| - 1].seqno > s
  }

  function Lookup(live: map<bytes, bytes>, k: bytes): Option<bytes>
  {
    if k in live then Some(live[k]) else None
  }

  /** Some request writes `k`. */
  ghost predicate Touches(qs: seq<Request>, k: bytes)
  {
    exists i, j :: 0 <= i < |qs| && qs[i].Writing? && 0 <= j < |qs[i].rs| && qs[i].rs[j].key == k
  }

  predicate Writes(rs: seq<Rec>, k: bytes)
  {
    exists j :: 0 <= j < |rs| && rs[j].key == k
  }

  /** What appending records does to reads at an older snapshot: nothing, except that written keys count as changed. */
  lemma {:induction false} AppendAllBehindSnapshot(db: Db, rs: seq<Rec>, s: nat, k: bytes)
    requires s <= db.seqno && Ordered(db.versions, db.seqno)
    ensures var db' := AppendAll(db, rs);
            && db'.seqno >= db.seqno && Ordered(db'.versions, db'.seqno)
            && GetAt(db'.versions, s, k) == GetAt(db.versions, s, k)
            && (ChangedSince(db'.versions, s, k) <==> ChangedSince(db.versions, s, k) || Writes(rs, k))
  {
    hide Ordered, Effect;
    if rs != [] {
      var n := |rs| - 1;
      AppendAllBehindSnapshot(db, rs[..n], s, k);
      var mid := AppendAll(db, rs[..n]);
      OrderedAdd(mid.versions, mid.seqno, rs[n]);
      AppendBehindSnapshot(mid, rs[n], s, k);
      WritesPush(rs[..n], rs[n], k);
      assert rs == rs[..n] + [rs[n]];
    }
  }

  lemma {:induction false} AppendBehindSnapshot(db: Db, r: Rec, s: nat, k: bytes)
    requires s <= db.seqno
    ensures GetAt(Append(db, r).versions, s, k) == GetAt(db.versions, s, k)
    ensures ChangedSince(Append(db, r).versions, s, k) <==> ChangedSince(db.versions, s, k) || r.key == k
  {
    if r.key == k {
      var chain := ChainOf(db.versions, k);
      assert ChainOf(Append(db, r).versions, k)[..|chain|] == chain;
    }
  }

  lemma {:induction false} WritesPush(rs: seq<Rec>, r: Rec, k: bytes)
    ensures Writes(rs + [r], k) <==> Writes(rs, k) || r.key == k
  {
    var all := rs + [r];
    if Writes(rs, k) {
      var j :| 0 <= j < |rs| && rs[j].key == k;
      assert all[j].key == k;
    }
    if r.key == k { assert all[|rs|].key == k; }
  }

  lemma {:induction false} TouchesCons(q: Request, rest: seq<Request>, k: bytes)
    ensures Touches([q] + rest, k) <==> (q.Writing? && Writes(q.rs, k)) || Touches(rest, k)
  {
    var qs := [q] + rest;
    assert forall i :: 0 <= i < |rest| ==> qs[i + 1] == rest[i];
    if Touches(rest, k) {
      var i, j :| 0 <= i < |rest| && rest[i].Writing? && 0 <= j < |rest[i].rs| && rest[i].rs[j].key == k;
      assert qs[i + 1].rs[j].key == k;
    }
    if q.Writing? && Writes(q.rs, k) {
      var j :| 0 <= j < |q.rs| && q.rs[j].key == k;
      assert qs[0].rs[j].key == k;
    }
    if Touches(qs, k) {
      var i, j :| 0 <= i < |qs| && qs[i].Writing? && 0 <= j < |qs[i].rs| && qs[i].rs[j].key == k;
      assert if i == 0 then qs[i] == q else qs[i] == rest[i - 1];
    }
  }

  lemma {:induction false} RunBehindSnapshot(db: Db, qs: seq<Request>, db': Db, s: nat, k: bytes)
    requires s <= db.seqno && Ordered(db.versions, db.seqno) && Runs(db, qs, db')
    ensures GetAt(db'.versions, s, k) == GetAt(db.versions, s, k)
    ensures ChangedSince(db'.versions, s, k) <==> ChangedSince(db.versions, s, k) || Touches(qs, k)
    decreases |qs|
  {
    hide Ordered, GetAt, ChangedSince, Touches, Writes, AppendAll, Enabled;
    if qs == [] {
      TouchesNone(k);
    } else {
      var mid := Serve(db, qs[0]);
      if qs[0].Writing? {
        AppendAllBehindSnapshot(db, qs[0].rs, s, k);
      }
      RunBehindSnapshot(mid, qs[1..], db', s, k);
      TouchesCons(qs[0], qs[1..], k);
      assert qs == [qs[0]] + qs[1..];
    }
  }

  lemma TouchesNone(k: bytes)
    ensures !Touches([], k)
  {
  }

  /** At the moment it is taken, a snapshot shows the live map and nothing counts as changed. */
  lemma {:induction false} SnapshotNow(db: Db, k: bytes)
    requires Agree(db)
    ensures GetAt(db.versions, db.seqno, k) == Lookup(db.live, k)
    ensures !ChangedSince(db.versions, db.seqno, k)
  {
    hide LiveOf;
    if k in db.versions && |db.versions[k]| > 0 {
      var last := db.versions[k][|db.versions[k]| - 1];
      assert last.seqno <= db.seqno;
      assert k in Newest(db.versions) <==> last.found;
    } else {
      assert k !in Newest(db.versions);
    }
  }

  /**
   * Snapshots are stable: whatever is written or compacted later, a read at the
   * snapshot still gives what was live when it was taken, and a key counts as
   * changed exactly when some later request wrote it.
   */
  lemma {:induction false} SnapshotStable(db: Db, qs: seq<Request>, db': Db, k: bytes)
    requires Agree(db) && Runs(db, qs, db')
    ensures GetAt(db'.versions, db.seqno, k) == Lookup(db.live, k)
    ensures ChangedSince(db'.versions, db.seqno, k) <==> Touches(qs, k)
  {
    hide GetAt, ChangedSince, Touches, Runs, LiveOf, Newest, Ordered;
    SnapshotNow(db, k);
    RunBehindSnapshot(db, qs, db', db.seqno, k);
  }
}
