/** The key-value store: page chain, B+Tree index, version chains and write-ahead log kept in step. */
module Store {
  import opened Common
  import opened Bytes
  import opened Page
  import opened BTreeShape
  import opened BTree
  import opened RecordLog
  import opened StoreSpec
  import Wal

  /** The record can be stored: it fits on an empty page. */
  predicate Storable(r: Rec)
  {
    RecSize(r) <= CAPACITY
  }

  predicate AllStorable(live: map<bytes, bytes>)
  {
    forall k :: k in live ==> Storable(Rec(LIVE, k, live[k]))
  }

  /** What an append that fails leaves behind: the version is recorded, the record is not. */
  function FailedAppend(db: Db, r: Rec): Db
  {
    db.(versions := AddVersion(db.versions, db.seqno + 1, r), seqno := db.seqno + 1)
  }

  function RecOf(op: Wal.BatchOp): Rec
  {
    Rec(if op.isDelete then TOMBSTONE else LIVE, op.key, op.value)
  }

  function RecsOf(ops: seq<Wal.BatchOp>): seq<Rec>
  {
    seq(|ops|, i requires 0 <= i < |ops| => RecOf(ops[i]))
  }

  /** How many records come before the first one that cannot be stored. */
  function StorablePrefix(rs: seq<Rec>): (n: nat)
    ensures n <= |rs|
    ensures forall i :: 0 <= i < n ==> Storable(rs[i])
    ensures n < |rs| ==> !Storable(rs[n])
  {
    if rs == [] || !Storable(rs[0]) then 0 else 1 + StorablePrefix(rs[1..])
  }

  /** What applying records one after another does, stopping at the first that cannot be stored. */
  function ApplyRecs(db: Db, rs: seq<Rec>): Db
  {
    var n := StorablePrefix(rs);
    if n == |rs| then AppendAll(db, rs) else FailedAppend(AppendAll(db, rs[..n]), rs[n])
  }

  /**
   * The three representations still agree after an append exactly when the
   * record could be stored, or was a tombstone for a key that was not live.
   */
  lemma {:induction false} AgreementAfterAppend(db: Db, r: Rec)
    requires Agree(db) && AllStorable(db.live) && (r.flag == LIVE || r.flag == TOMBSTONE)
    ensures Agree(if Storable(r) then StoreSpec.Append(db, r) else FailedAppend(db, r)) <==>
            Storable(r) || (r.flag == TOMBSTONE && r.key !in db.live)
  {
    hide LiveOf, Ordered, AddVersion, StoreSpec.Newest;
    if Storable(r) {
      AppendAgrees(db, r);
    } else {
      NewestAdd(db.versions, db.seqno + 1, r);
      OrderedAdd(db.versions, db.seqno, r);
      var after := Effect(db.live, r);
      if r.flag == LIVE {
        assert r.key in after && after[r.key] == r.value;
        assert !(r.key in db.live && db.live[r.key] == r.value);
      } else {
        assert after == db.live <==> r.key !in db.live;
      }
    }
  }

  /** For instance a value too large for a page, put into an empty store: its version is there, its record is not. */
  lemma {:induction false} OversizedPutDisagrees(key: bytes, value: bytes)
    requires |key| + |value| > 4075
    ensures var r := Rec(LIVE, key, value);
            Agree(EMPTY) && !Storable(r) && !Agree(FailedAppend(EMPTY, r)) && key in Newest(FailedAppend(EMPTY, r).versions)
  {
    var r := Rec(LIVE, key, value);
    EmptyAgrees();
    AgreementAfterAppend(EMPTY, r);
  }

  class Store {
    var chain: PageChain
    var index: BPlusTree
    var wal: Wal.LogFile
    var seqno: nat
    var versions: Versions
    var activeSnapshots: nat
    var saved: seq<Entry>  // the index file

    /** The page chain and the index are well formed objects. */
    ghost predicate Parts()
      reads this, chain, chain.Arrays(), index, index.root, index.Repr()
    {
      chain.Valid() && index.Valid()
    }

    ghost predicate Valid()
      reads this, chain, chain.Arrays(), index, index.root, index.Repr()
    {
      && Parts()
      && index.Contents() == LiveOf(chain.Log())
      && saved == index.List()
      && AllStorable(index.Contents())
    }

    ghost function Abs(): Db
      reads this, chain, index, index.root
    {
      Db(chain.Log(), index.Contents(), versions, seqno, activeSnapshots)
    }

    constructor (crc: bytes -> u32)
      ensures Valid() && Abs() == EMPTY && chain.pages == []
      ensures fresh(chain) && fresh(index) && fresh(wal) && wal.file == []
    {
      chain := new PageChain();
      index := new BPlusTree();
      wal := new Wal.LogFile(crc);
      seqno, versions, activeSnapshots, saved := 0, map[], 0, [];
    }

    method SaveIndex()
      requires index.Valid()
      modifies this`saved
      ensures saved == index.List()
    {
      saved := index.InOrder();
    }

    /**
     * Record a version, write the record to the chain, update the index.  A
     * tombstone removes the key from the index only when it needed a new page;
     * the callers remove it themselves.
     */
    method Append(key: bytes, value: bytes, flag: byte) returns (ok: bool)
      requires Parts() && saved == index.List() && (flag == LIVE || flag == TOMBSTONE)
      requires |chain.pages| + 2 < NO_PAGE
      modifies this`seqno, this`versions, this`saved, chain, chain.Arrays(), index, index.Repr()
      ensures Parts() && saved == index.List()
      ensures fresh(chain.Arrays() - old(chain.Arrays())) && fresh(index.Repr() - old(index.Repr()))
      ensures ok <==> Storable(Rec(flag, key, value))
      ensures seqno == old(seqno) + 1 && versions == AddVersion(old(versions), seqno, Rec(flag, key, value))
      ensures chain.Log() == if ok then old(chain.Log()) + [Rec(flag, key, value)] else old(chain.Log())
      ensures !ok ==> index.Contents() == old(index.Contents())
      ensures ok && flag == LIVE ==> index.Contents() == old(index.Contents())[key := value]
      ensures ok && flag != LIVE ==> index.Contents() == old(index.Contents()) || index.Contents() == old(index.Contents()) - {key}
      ensures |chain.pages| <= old(|chain.pages|) + 2
    {
      hide BPlusTree.Contents, BPlusTree.List, BPlusTree.Valid, PageChain.Valid, PageChain.Log, RecSize;
      seqno, versions := seqno + 1, versions[key := ChainOf(versions, key) + [Version(seqno + 1, value, flag == LIVE)]];
      var grew;
      ok, grew := chain.AppendRecord(key, value, flag);
      if ok {
        UpdateIndex(key, value, flag, grew);
      }
    }

    method UpdateIndex(key: bytes, value: bytes, flag: byte, grew: bool)
      requires index.Valid()
      modifies this`saved, index, index.Repr()
      ensures index.Valid() && saved == index.List() && fresh(index.Repr() - old(index.Repr()))
      ensures flag == LIVE ==> index.Contents() == old(index.Contents())[key := value]
      ensures flag != LIVE ==> index.Contents() == old(index.Contents()) - if grew then {key} else {}
    {
      hide BPlusTree.Contents, BPlusTree.List, BPlusTree.Valid;
      if flag == LIVE {
        index.Put(key, value);
      } else if grew {
        var _ := index.Delete(key);
      }
      SaveIndex();
    }

    /** Append, then for a tombstone drop the key from the index. */
    method AppendAndDrop(key: bytes, value: bytes, flag: byte) returns (ok: bool)
      requires Valid() && (flag == LIVE || flag == TOMBSTONE) && |chain.pages| + 2 < NO_PAGE
      modifies this`seqno, this`versions, this`saved, chain, chain.Arrays(), index, index.Repr()
      ensures Valid()
      ensures fresh(chain.Arrays() - old(chain.Arrays())) && fresh(index.Repr() - old(index.Repr()))
      ensures ok <==> Storable(Rec(flag, key, value))
      ensures Abs() == if ok then StoreSpec.Append(old(Abs()), Rec(flag, key, value))
                       else FailedAppend(old(Abs()), Rec(flag, key, value))
      ensures |chain.pages| <= old(|chain.pages|) + 2
    {
      hide BPlusTree.Contents, BPlusTree.List, BPlusTree.Valid, PageChain.Valid, PageChain.Log, RecSize, LiveOf;
      LiveOfPush(chain.Log(), Rec(flag, key, value));
      ok := Append(key, value, flag);
      if ok && flag != LIVE {
        DropFromIndex(key);
      }
    }

    method DropFromIndex(key: bytes)
      requires index.Valid()
      modifies this`saved, index
      ensures index.Valid() && saved == index.List() && fresh(index.Repr() - old(index.Repr()))
      ensures index.Contents() == old(index.Contents()) - {key}
    {
      hide BPlusTree.Contents, BPlusTree.List, BPlusTree.Valid;
      var _ := index.Delete(key);
      SaveIndex();
    }

    /** Write or overwrite the value of a key. */
    method Put(key: bytes, value: bytes) returns (ok: bool)
      requires Valid() && |chain.pages| + 2 < NO_PAGE
      modifies this, chain, chain.Arrays(), index, index.Repr(), wal
      ensures Valid() && chain == old(chain) && index == old(index) && wal == old(wal)
      ensures fresh(chain.Arrays() - old(chain.Arrays())) && fresh(index.Repr() - old(index.Repr()))
      ensures ok <==> Storable(Rec(LIVE, key, value))
      ensures Abs() == if ok then StoreSpec.Append(old(Abs()), Rec(LIVE, key, value))
                       else if Wal.Fits(Wal.Record(Wal.PUT, key, value)) then FailedAppend(old(Abs()), Rec(LIVE, key, value))
                       else old(Abs())
      ensures var r := Wal.Record(Wal.PUT, key, value);
              wal.file == old(wal.file) + if Wal.Fits(r) then Wal.RecordBytes(wal.crc, r) else []
      ensures |chain.pages| <= old(|chain.pages|) + 2
    {
      hide BPlusTree.Contents, BPlusTree.List, BPlusTree.Valid, PageChain.Valid, PageChain.Log, LiveOf, Wal.RecordBytes;
      var logged := wal.Append(Wal.PUT, key, value);
      if !logged {
        return false;
      }
      ok := AppendAndDrop(key, value, LIVE);
    }

    /** Append a tombstone for a key and remove it from the index. */
    method Delete(key: bytes) returns (ok: bool)
      requires Valid() && |chain.pages| + 2 < NO_PAGE
      modifies this, chain, chain.Arrays(), index, index.Repr(), wal
      ensures Valid() && chain == old(chain) && index == old(index) && wal == old(wal)
      ensures fresh(chain.Arrays() - old(chain.Arrays())) && fresh(index.Repr() - old(index.Repr()))
      ensures ok <==> Storable(Rec(TOMBSTONE, key, []))
      ensures Abs() == if ok then StoreSpec.Append(old(Abs()), Rec(TOMBSTONE, key, []))
                       else if Wal.Fits(Wal.Record(Wal.DELETE, key, [])) then FailedAppend(old(Abs()), Rec(TOMBSTONE, key, []))
                       else old(Abs())
      ensures var r := Wal.Record(Wal.DELETE, key, []);
              wal.file == old(wal.file) + if Wal.Fits(r) then Wal.RecordBytes(wal.crc, r) else []
      ensures |chain.pages| <= old(|chain.pages|) + 2
    {
      hide BPlusTree.Contents, BPlusTree.List, BPlusTree.Valid, PageChain.Valid, PageChain.Log, LiveOf, Wal.RecordBytes;
      var logged := wal.Append(Wal.DELETE, key, []);
      if !logged {
        return false;
      }
      ok := AppendAndDrop(key, [], TOMBSTONE);
    }

    /** Commit a group of puts and deletes as one logged batch. */
    method ApplyBatch(id: u64, ops: seq<Wal.BatchOp>) returns (ok: bool)
      requires Valid() && |chain.pages| + 2 * |ops| + 2 < NO_PAGE
      modifies this, chain, chain.Arrays(), index, index.Repr(), wal
      ensures Valid() && chain == old(chain) && index == old(index) && wal == old(wal)
      ensures fresh(chain.Arrays() - old(chain.Arrays())) && fresh(index.Repr() - old(index.Repr()))
      ensures ok <==> Wal.ItemOf(id, ops).Batch? && StorablePrefix(RecsOf(ops)) == |ops|
      ensures Abs() == if Wal.ItemOf(id, ops).Batch? then ApplyRecs(old(Abs()), RecsOf(ops)) else old(Abs())
      ensures Wal.Logged(Wal.ItemOf(id, ops))
      ensures wal.file == old(wal.file) + Wal.ItemBytes(wal.crc, Wal.ItemOf(id, ops))
      ensures |chain.pages| <= old(|chain.pages|) + 2 * |ops|
    {
      hide BPlusTree.Contents, BPlusTree.List, BPlusTree.Valid, PageChain.Valid, PageChain.Log, LiveOf, Wal.ItemBytes,
           Wal.Logged, ApplyRecs, StorablePrefix;
      var logged := wal.AppendTransaction(id, ops);
      if !logged {
        return false;
      }
      ok := ApplyOps(ops);
    }

    method ApplyOps(ops: seq<Wal.BatchOp>) returns (ok: bool)
      requires Valid() && |chain.pages| + 2 * |ops| + 2 < NO_PAGE
      modifies this`seqno, this`versions, this`saved, chain, chain.Arrays(), index, index.Repr()
      ensures Valid()
      ensures fresh(chain.Arrays() - old(chain.Arrays())) && fresh(index.Repr() - old(index.Repr()))
      ensures ok <==> StorablePrefix(RecsOf(ops)) == |ops|
      ensures Abs() == ApplyRecs(old(Abs()), RecsOf(ops))
      ensures |chain.pages| <= old(|chain.pages|) + 2 * |ops|
    {
      hide Store.Valid, Store.Abs, AppendAll, Storable, FailedAppend, StoreSpec.Append, StorablePrefix, LiveOf;
      ghost var rs := RecsOf(ops);
      AppendAllNone(Abs());
      var i := 0;
      while i < |ops|
        invariant i <= |ops| && i <= StorablePrefix(rs)
        invariant Valid()
        invariant fresh(chain.Arrays() - old(chain.Arrays())) && fresh(index.Repr() - old(index.Repr()))
        invariant Abs() == AppendAll(old(Abs()), rs[..i])
        invariant |chain.pages| <= old(|chain.pages|) + 2 * i
      {
        var flag := if ops[i].isDelete then TOMBSTONE else LIVE;
        AppendAllNext(old(Abs()), rs, i);
        var stored := AppendAndDrop(ops[i].key, ops[i].value, flag);
        if !stored {
          return false;
        }
        i := i + 1;
      }
      assert rs[..i] == rs;
      return true;
    }

    /**
     * After a clean close the two recovery paths agree: the saved index stands
     * for the same map as the records on the page chain.
     */
    lemma RecoveryPathsAgree()
      requires Valid()
      ensures MapOf(saved) == LiveOf(chain.Log()) == AppendAll(EMPTY, chain.Log()).live
      ensures Agree(AppendAll(EMPTY, chain.Log()))
    {
      hide PageChain.Valid, BPlusTree.Valid, MapOf, LiveOf, Agree, AppendAll;
      RebuiltAgrees(chain.Log());
    }

    method Get(key: bytes) returns (value: bytes, found: bool)
      requires Valid()
      ensures found <==> key in Abs().live
      ensures value == if found then Abs().live[key] else []
    {
      value, found := index.Get(key);
    }

    lemma Apart()
      ensures forall a :: a in chain.Arrays() ==> a as object != this
    {
    }

    method BeginSnapshot() returns (snapshot: nat)
      requires Valid()
      modifies this`activeSnapshots
      ensures Valid() && Abs() == Serve(old(Abs()), Beginning) && snapshot == Abs().seqno
    {
      hide BPlusTree.Contents, BPlusTree.List, BPlusTree.Valid, PageChain.Valid, PageChain.Log, LiveOf, AllStorable;
      Apart();
      activeSnapshots := activeSnapshots + 1;
      snapshot := seqno;
    }

    method ReleaseSnapshot(snapshot: nat)
      requires Valid()
      modifies this`activeSnapshots
      ensures Valid() && Abs() == Serve(old(Abs()), Releasing)
    {
      hide BPlusTree.Contents, BPlusTree.List, BPlusTree.Valid, PageChain.Valid, PageChain.Log, LiveOf, AllStorable;
      Apart();
      if activeSnapshots > 0 {
        activeSnapshots := activeSnapshots - 1;
      }
    }

    method HasChangedSince(snapshot: nat, key: bytes) returns (changed: bool)
      ensures changed <==> ChangedSince(versions, snapshot, key)
    {
      var vs := ChainOf(versions, key);
      changed := |vs| > 0 && vs[|vs| - 1].seqno > snapshot;
    }

    /** Search the chain from its newest version back. */
    method ReadAt(snapshot: nat, key: bytes) returns (value: bytes, found: bool)
      ensures found <==> GetAt(versions, snapshot, key).Some?
      ensures found ==> GetAt(versions, snapshot, key) == Some(value)
    {
      var vs := ChainOf(versions, key);
      var v := Newest(vs, snapshot);
      match v
      case Some(x) => return x.value, x.found;
      case None => return [], false;
    }

    static method Newest(vs: seq<Version>, snapshot: nat) returns (v: Option<Version>)
      ensures v == VisibleAt(vs, snapshot)
    {
      var i := |vs|;
      assert vs[..i] == vs;
      while i > 0
        invariant i <= |vs|
        invariant VisibleAt(vs, snapshot) == VisibleAt(vs[..i], snapshot)
      {
        i := i - 1;
        assert vs[..i + 1][..i] == vs[..i];
        if vs[i].seqno <= snapshot {
          return Some(vs[i]);
        }
      }
      return None;
    }

    /** The keys live at a snapshot, each once, in no particular order. */
    method KeysAt(snapshot: nat) returns (keys: seq<bytes>)
      ensures forall i, j :: 0 <= i < j < |keys| ==> keys[i] != keys[j]
      ensures forall k :: k in keys <==> GetAt(versions, snapshot, k).Some?
    {
      hide VisibleAt;
      keys := [];
      var rest := versions.Keys;
      while rest != {}
        invariant rest <= versions.Keys
        invariant forall i, j :: 0 <= i < j < |keys| ==> keys[i] != keys[j]
        invariant forall k :: k in keys <==> k in versions.Keys - rest && GetAt(versions, snapshot, k).Some?
        decreases |rest|
      {
        var key :| key in rest;
        assert key !in keys;
        rest := rest - {key};
        var v := Newest(versions[key], snapshot);
        if v.Some? && v.value.found {
          keys := keys + [key];
        }
      }
      NothingVisible(snapshot);
    }

    lemma NothingVisible(snapshot: nat)
      ensures forall k :: k !in versions ==> GetAt(versions, snapshot, k) == None
    {
    }

    /** Rewrite the chain with one record for each live key; refused while a snapshot is held. */
    method Compact() returns (ok: bool)
      requires Valid() && 2 * |index.List()| + 2 < NO_PAGE
      modifies this, wal
      ensures Valid() && index == old(index) && wal == old(wal)
      ensures ok <==> old(activeSnapshots) == 0
      ensures Lists(Listing(index.List()), Abs().live)
      ensures Abs() == Serve(old(Abs()), Compacting(Listing(index.List())))
      ensures if ok then fresh(chain) && fresh(chain.Arrays()) && chain.Contiguous() && wal.file == []
              else chain == old(chain) && chain.Arrays() == old(chain.Arrays()) && wal.file == old(wal.file)
    {
      hide BPlusTree.List, BPlusTree.Valid, PageChain.Valid, PageChain.Log, LiveOf, Listing, Lists, Storable, MapOf;
      index.ListSorted();
      ListingLists(index.List());
      StorableEntries(index.List());
      if activeSnapshots > 0 {
        return false;
      }
      var entries := index.InOrder();
      var compacted := Rewrite(entries);
      LiveOfListing(Listing(entries), Abs().live);
      chain := compacted;
      wal.Clear();
      return true;
    }
  }

  /** One live record per entry. */
  function Listing(es: seq<Entry>): seq<Rec>
  {
    seq(|es|, i requires 0 <= i < |es| => Rec(LIVE, es[i].key, es[i].value))
  }

  lemma {:induction false} ListingLists(es: seq<Entry>)
    requires SortedEntries(es)
    ensures Lists(Listing(es), MapOf(es))
  {
    hide MapOf, Rank;
    var m, rs := MapOf(es), Listing(es);
    forall i | 0 <= i < |rs| ensures rs[i].flag == LIVE && rs[i].key in m && m[rs[i].key] == rs[i].value {
      assert es[i] == Entry(es[i].key, es[i].value);
      MapOfMembers(es, es[i].key);
    }
    forall k | k in m ensures Rec(LIVE, k, m[k]) in rs {
      MapOfMembers(es, k);
      var i :| 0 <= i < |es| && es[i] == Entry(k, m[k]);
      assert rs[i] == Rec(LIVE, k, m[k]);
    }
  }

  lemma {:induction false} StorableEntries(es: seq<Entry>)
    requires SortedEntries(es) && AllStorable(MapOf(es))
    ensures forall i :: 0 <= i < |es| ==> Storable(Rec(LIVE, es[i].key, es[i].value))
  {
    hide Storable, MapOf;
    forall i | 0 <= i < |es| ensures Storable(Rec(LIVE, es[i].key, es[i].value)) {
      MapOfMembers(es, es[i].key);
      assert es[i] == Entry(es[i].key, es[i].value);
    }
  }

  /** A new chain that holds the entries as live records. */
  method Rewrite(entries: seq<Entry>) returns (compacted: PageChain)
    requires 2 * |entries| + 2 < NO_PAGE
    requires forall i :: 0 <= i < |entries| ==> Storable(Rec(LIVE, entries[i].key, entries[i].value))
    ensures fresh(compacted) && fresh(compacted.Arrays()) && compacted.Valid() && compacted.Contiguous()
    ensures compacted.Log() == Listing(entries)
  {
    hide PageChain.Valid, PageChain.Log, RecSize;
    compacted := new PageChain();
    var i := 0;
    while i < |entries|
      invariant i <= |entries|
      invariant fresh(compacted) && fresh(compacted.Arrays()) && compacted.Valid() && compacted.Contiguous()
      invariant compacted.Log() == Listing(entries[..i]) && |compacted.pages| <= 2 * i
    {
      var ok, _ := compacted.AppendRecord(entries[i].key, entries[i].value, LIVE);
      assert Listing(entries[..i + 1]) == Listing(entries[..i]) + [Rec(LIVE, entries[i].key, entries[i].value)];
      i := i + 1;
    }
    assert entries[..i] == entries;
  }

  // --------------------------------------------------------------- recovery

  method LoadIndex(entries: seq<Entry>) returns (t: BPlusTree)
    ensures fresh(t) && fresh(t.Repr()) && t.Valid() && t.Contents() == MapOf(entries)
  {
    hide BPlusTree.Valid;
    t := new BPlusTree();
    var i := 0;
    while i < |entries|
      invariant i <= |entries| && fresh(t) && fresh(t.Repr()) && t.Valid()
      invariant t.Contents() == MapOf(entries[..i])
    {
      assert entries[..i + 1][..i] == entries[..i];
      t.Put(entries[i].key, entries[i].value);
      i := i + 1;
    }
    assert entries[..i] == entries;
  }

  /** Index and version chains from the records on the page chain. */
  method RebuildIndex(file: PageChain) returns (t: BPlusTree, versions: Versions, seqno: nat)
    requires file.Valid()
    ensures fresh(t) && fresh(t.Repr()) && t.Valid()
    ensures Db(file.Log(), t.Contents(), versions, seqno, 0) == AppendAll(EMPTY, file.Log())
  {
    hide PageChain.Valid, BPlusTree.Valid, BPlusTree.Contents, PageChain.Log;
    var rs := file.ScanChain();
    t, versions, seqno := Replay(rs);
  }

  method Replay(rs: seq<Rec>) returns (t: BPlusTree, versions: Versions, seqno: nat)
    requires forall i :: 0 <= i < |rs| ==> Proper(rs[i])
    ensures fresh(t) && fresh(t.Repr()) && t.Valid()
    ensures Db(rs, t.Contents(), versions, seqno, 0) == AppendAll(EMPTY, rs)
  {
    hide BPlusTree.Valid, BPlusTree.Contents, AppendAll, StoreSpec.Append, AddVersion;
    t := new BPlusTree();
    versions, seqno := map[], 0;
    AppendAllNone(EMPTY);
    var i := 0;
    while i < |rs|
      invariant i <= |rs| && fresh(t) && fresh(t.Repr()) && t.Valid()
      invariant Db(rs[..i], t.Contents(), versions, seqno, 0) == AppendAll(EMPTY, rs[..i])
    {
      var r := rs[i];
      ReplayNext(rs, i, t.Contents(), versions, seqno);
      if r.flag == TOMBSTONE {
        var _ := t.Delete(r.key);
      } else {
        t.Put(r.key, r.value);
      }
      seqno := seqno + 1;
      versions := versions[r.key := ChainOf(versions, r.key) + [Version(seqno, r.value, r.flag == LIVE)]];
      i := i + 1;
    }
    assert rs[..i] == rs;
  }

  lemma {:induction false} ReplayNext(rs: seq<Rec>, i: nat, live: map<bytes, bytes>, versions: Versions, seqno: nat)
    requires i < |rs| && Proper(rs[i]) && Db(rs[..i], live, versions, seqno, 0) == AppendAll(EMPTY, rs[..i])
    ensures var r := rs[i];
            Db(rs[..i + 1], if r.flag == TOMBSTONE then live - {r.key} else live[r.key := r.value],
               versions[r.key := ChainOf(versions, r.key) + [Version(seqno + 1, r.value, r.flag == LIVE)]], seqno + 1, 0)
            == AppendAll(EMPTY, rs[..i + 1])
  {
    hide AppendAll;
    AppendAllNext(EMPTY, rs, i);
    assert rs[..i + 1] == rs[..i] + [rs[i]];
  }

  /** Version chains alone, when the index came from its file. */
  method RebuildVersions(file: PageChain) returns (versions: Versions, seqno: nat)
    requires file.Valid()
    ensures versions == AppendAll(EMPTY, file.Log()).versions && seqno == AppendAll(EMPTY, file.Log()).seqno
  {
    hide PageChain.Valid, PageChain.Log, AppendAll;
    var rs := file.ScanChain();
    versions, seqno := map[], 0;
    AppendAllNone(EMPTY);
    for i := 0 to |rs|
      invariant versions == AppendAll(EMPTY, rs[..i]).versions && seqno == AppendAll(EMPTY, rs[..i]).seqno
      invariant rs == file.Log()
    {
      AppendAllNext(EMPTY, rs, i);
      seqno := seqno + 1;
      versions := versions[rs[i].key := ChainOf(versions, rs[i].key) + [Version(seqno, rs[i].value, rs[i].flag == LIVE)]];
    }
    assert rs[..|rs|] == rs;
  }

  /** Opening a file after a clean close, when the log is empty: with the saved index, or without it. */
  method Open(file: PageChain, saved: Option<seq<Entry>>) returns (t: BPlusTree, versions: Versions, seqno: nat)
    requires file.Valid()
    ensures fresh(t) && fresh(t.Repr()) && t.Valid()
    ensures t.Contents() == if saved.Some? then MapOf(saved.value) else LiveOf(file.Log())
    ensures versions == AppendAll(EMPTY, file.Log()).versions && seqno == AppendAll(EMPTY, file.Log()).seqno
  {
    hide Linked, PageChain.Log, AppendAll, BPlusTree.Valid, BPlusTree.Contents, LiveOf, MapOf;
    RebuiltAgrees(file.Log());
    if saved.Some? {
      versions, seqno := RebuildVersions(file);
      t := LoadIndex(saved.value);
    } else {
      t, versions, seqno := RebuildIndex(file);
    }
  }

  /**
   * Closing a store cleanly and opening it again: with or without the saved
   * index, the index is the live map of before, and the version chains are
   * those of the records.
   */
  method Reopen(s: Store, keepIndex: bool) returns (t: BPlusTree, versions: Versions, seqno: nat)
    requires s.Valid()
    ensures fresh(t) && fresh(t.Repr()) && t.Valid()
    ensures t.Contents() == s.Abs().live
    ensures Db(s.chain.Log(), t.Contents(), versions, seqno, 0) == AppendAll(EMPTY, s.chain.Log())
    ensures Agree(Db(s.chain.Log(), t.Contents(), versions, seqno, 0))
  {
    hide PageChain.Valid, PageChain.Log, BPlusTree.Valid, BPlusTree.Contents, BPlusTree.List, MapOf, LiveOf, Agree,
         AppendAll, AllStorable;
    s.RecoveryPathsAgree();
    AppendAllSnapshots(EMPTY, s.chain.Log());
    RebuiltAgrees(s.chain.Log());
    ghost var live, log := s.Abs().live, s.chain.Log();
    t, versions, seqno := Open(s.chain, if keepIndex then Some(s.saved) else None);
  }

  /** Records applied to nothing: the chains increase and end in the values of the folded log. */
  lemma {:induction false} RebuiltAgrees(rs: seq<Rec>)
    ensures Agree(AppendAll(EMPTY, rs)) && AppendAll(EMPTY, rs).log == rs
    ensures AppendAll(EMPTY, rs).live == LiveOf(rs)
  {
    hide LiveOf, Newest, Ordered;
    EmptyAgrees();
    AppendAllAgrees(EMPTY, rs);
    AppendAllLog(EMPTY, rs);
    assert [] + rs == rs;
  }

  lemma {:induction false} AppendAllLog(db: Db, rs: seq<Rec>)
    ensures AppendAll(db, rs).log == db.log + rs
  {
    if rs != [] {
      AppendAllLog(db, rs[..|rs| - 1]);
      assert rs == rs[..|rs| - 1] + [rs[|rs| - 1]];
    } else {
      assert db.log + rs == db.log;
    }
  }
}
