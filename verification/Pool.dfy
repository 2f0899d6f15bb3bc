/** The buffer pool and the pager over a file whose reads and writes may fail. */
module Pool {
  import opened Common
  import opened Bytes
  import opened PoolSpec
  import P = Page

  /** The database file by page, with the outcome of each future access. */
  class Disk {
    var blocks: map<nat, bytes>
    var faults: seq<bool>

    method NextFault() returns (failed: bool)
      modifies this`faults
    {
      failed := faults != [] && faults[0];
      if faults != [] { faults := faults[1..]; }
    }

    method Read(id: nat) returns (r: Option<bytes>, ghost failed: bool)
      modifies this`faults
      ensures r == if failed || id !in blocks then None else Some(blocks[id])
    {
      var fault := NextFault();
      failed := fault;
      r := if fault || id !in blocks then None else Some(blocks[id]);
    }

    method Write(id: nat, data: bytes) returns (ok: bool)
      modifies this
      ensures blocks == if ok then old(blocks)[id := data] else old(blocks)
    {
      var fault := NextFault();
      ok := !fault;
      if ok { blocks := blocks[id := data]; }
    }
  }

  /** A cached page. */
  class Entry {
    const id: nat
    var data: bytes
    var dirty: bool

    constructor (id: nat, data: bytes, dirty: bool)
      ensures this.id == id && this.data == data && this.dirty == dirty
    {
      this.id, this.data, this.dirty := id, data, dirty;
    }
  }

  ghost function Slots(lru: seq<Entry>): (r: seq<Slot>)
    reads lru
    ensures |r| == |lru|
    ensures forall i :: 0 <= i < |lru| ==> r[i] == Slot(lru[i].id, lru[i].data, lru[i].dirty)
  {
    if lru == [] then []
    else
      var e := lru[|lru| - 1];
      Slots(lru[..|lru| - 1]) + [Slot(e.id, e.data, e.dirty)]
  }

  /** The map and the list are in bijection. */
  ghost predicate Matched(items: map<nat, Entry>, lru: seq<Entry>)
  {
    && (forall i, j :: 0 <= i < j < |lru| ==> lru[i].id != lru[j].id)
    && (forall i :: 0 <= i < |lru| ==> lru[i].id in items && items[lru[i].id] == lru[i])
    && (forall id :: id in items ==> items[id] in lru && items[id].id == id)
  }

  function Front(lru: seq<Entry>, i: nat): seq<Entry>
    requires i < |lru|
  {
    [lru[i]] + lru[..i] + lru[i + 1..]
  }

  lemma {:induction false} FrontAt(lru: seq<Entry>, i: nat)
    requires i < |lru|
    ensures |Front(lru, i)| == |lru|
    ensures forall j :: 0 <= j < |lru| ==> Front(lru, i)[j] == if j == 0 then lru[i] else if j <= i then lru[j - 1] else lru[j]
  {
  }

  lemma {:induction false} MatchedFront(items: map<nat, Entry>, lru: seq<Entry>, i: nat)
    requires Matched(items, lru) && i < |lru|
    ensures Matched(items, Front(lru, i))
  {
    FrontDistinct(lru, i);
    FrontSame(lru, i);
    var t := Front(lru, i);
    forall j | 0 <= j < |t| ensures t[j].id in items && items[t[j].id] == t[j] {
      assert t[j] in lru;
    }
  }

  lemma {:induction false} FrontDistinct(lru: seq<Entry>, i: nat)
    requires i < |lru| && forall a, b :: 0 <= a < b < |lru| ==> lru[a].id != lru[b].id
    ensures forall a, b :: 0 <= a < b < |Front(lru, i)| ==> Front(lru, i)[a].id != Front(lru, i)[b].id
  {
    FrontAt(lru, i);
  }

  lemma {:induction false} FrontSame(lru: seq<Entry>, i: nat)
    requires i < |lru|
    ensures forall e :: e in Front(lru, i) <==> e in lru
  {
    assert lru == lru[..i] + [lru[i]] + lru[i + 1..];
  }

  lemma {:induction false} MatchedDrop(items: map<nat, Entry>, lru: seq<Entry>)
    requires Matched(items, lru) && lru != []
    ensures Matched(items - {lru[|lru| - 1].id}, lru[..|lru| - 1])
  {
    var t, rest := lru[..|lru| - 1], items - {lru[|lru| - 1].id};
    forall id | id in rest ensures rest[id] in t {
      var j :| 0 <= j < |lru| && lru[j] == items[id];
      assert t[j] == lru[j];
    }
  }

  lemma {:induction false} MatchedPush(items: map<nat, Entry>, lru: seq<Entry>, e: Entry)
    requires Matched(items, lru) && e.id !in items
    ensures Matched(items[e.id := e], [e] + lru)
  {
    var t, more := [e] + lru, items[e.id := e];
    assert forall j :: 0 <= j < |t| ==> t[j] == if j == 0 then e else lru[j - 1];
    forall id | id in more ensures more[id] in t {
      if id == e.id { assert t[0] == e; }
      else {
        var j :| 0 <= j < |lru| && lru[j] == items[id];
        assert t[j + 1] == lru[j];
      }
    }
  }

  lemma {:induction false} SlotsFront(lru: seq<Entry>, i: nat)
    requires i < |lru|
    ensures Slots(Front(lru, i)) == ToFront(Slots(lru), i, Slots(lru)[i])
  {
    hide Slots;
    FrontAt(lru, i);
    assert forall j :: 0 <= j < |lru| ==>
      ToFront(Slots(lru), i, Slots(lru)[i])[j] == Slots(lru)[if j == 0 then i else if j <= i then j - 1 else j];
  }

  lemma {:induction false} SlotsPush(lru: seq<Entry>, e: Entry)
    ensures Slots([e] + lru) == [Slot(e.id, e.data, e.dirty)] + Slots(lru)
  {
    hide Slots;
  }

  lemma {:induction false} SlotsTake(lru: seq<Entry>, n: nat)
    requires n <= |lru|
    ensures Slots(lru[..n]) == Slots(lru)[..n]
  {
    hide Slots;
  }

  /** The list holds the page exactly when the map does, and it is the same entry. */
  lemma {:induction false} Cached(items: map<nat, Entry>, lru: seq<Entry>, id: nat)
    requires Matched(items, lru)
    ensures id in items <==> Find(Slots(lru), id) < |lru|
    ensures id in items ==> lru[Find(Slots(lru), id)] == items[id]
  {
    hide Find, Slots;
    var i := Find(Slots(lru), id);
    if id in items {
      var j :| 0 <= j < |lru| && lru[j] == items[id];
      FindUnique(Slots(lru), id, j);
    }
  }

  lemma {:induction false} IndexOf(items: map<nat, Entry>, lru: seq<Entry>, i: nat)
    requires Matched(items, lru) && i < |lru|
    ensures Find(Slots(lru), lru[i].id) == i
  {
    hide Find, Slots;
    FindUnique(Slots(lru), lru[i].id, i);
  }

  class BufferPool {
    const capacity: nat
    const disk: Disk
    var items: map<nat, Entry>
    var lru: seq<Entry>
    var hits: nat
    var misses: nat

    ghost predicate Valid()
      reads this
    {
      capacity >= 1 && |lru| <= capacity && Matched(items, lru)
    }

    ghost function Abs(): PoolSpec.Pool
      reads this, disk, lru
    {
      PoolSpec.Pool(capacity, Slots(lru), disk.blocks)
    }

    constructor (capacity: int, disk: Disk)
      ensures Valid() && Ok(Abs())
      ensures this.disk == disk && this.capacity == (if capacity < 1 then 1 else capacity)
      ensures Abs() == PoolSpec.Pool(this.capacity, [], disk.blocks)
    {
      this.capacity := if capacity < 1 then 1 else capacity;
      this.disk := disk;
      items, lru, hits, misses := map[], [], 0, 0;
    }

    /** Move the element to the front of the recency list. */
    method MoveToFront(e: Entry, ghost i: nat)
      requires Valid() && i < |lru| && lru[i] == e
      modifies this`lru
      ensures Valid() && Abs() == old(Abs()).(slots := ToFront(old(Slots(lru)), i, old(Slots(lru))[i]))
      ensures forall x :: x in lru ==> x in old(lru)
    {
      hide Matched, Slots, ToFront, Front;
      MatchedFront(items, lru, i);
      SlotsFront(lru, i);
      FrontSame(lru, i);
      FrontAt(lru, i);
      UniqueAt(i);
      var k :| 0 <= k < |lru| && lru[k] == e;
      lru := Front(lru, k);
    }

    lemma UniqueAt(i: nat)
      requires Valid() && i < |lru|
      ensures forall k :: 0 <= k < |lru| && lru[k] == lru[i] ==> k == i
    {
    }

    /** Evict the least recently used page if the pool is full, writing it out first when dirty. */
    method MakeRoom() returns (ok: bool, ghost writeFails: bool)
      requires Valid()
      modifies this`items, this`lru, disk
      ensures Valid() && lru <= old(lru)
      ensures forall id :: id in items ==> id in old(items)
      ensures ok ==> |lru| < capacity
      ensures !ok ==> Abs() == old(Abs())
      ensures PoolSpec.MakeRoom(old(Abs()), writeFails) == if ok then Some(Abs()) else None
    {
      hide Matched, Slots;
      writeFails := false;
      if |lru| < capacity { return true, false; }
      var e := lru[|lru| - 1];
      MatchedDrop(items, lru);
      SlotsTake(lru, |lru| - 1);
      if e.dirty {
        ok := disk.Write(e.id, e.data);
        writeFails := !ok;
        if !ok { return false, true; }
      }
      items := items - {e.id};
      lru := lru[..|lru| - 1];
      ok := true;
    }

    /** Put a new entry in front. */
    method PushFront(e: Entry)
      requires Valid() && |lru| < capacity && e.id !in items
      modifies this`items, this`lru
      ensures Valid() && lru == [e] + old(lru) && items == old(items)[e.id := e]
    {
      hide Matched;
      MatchedPush(items, lru, e);
      items := items[e.id := e];
      lru := [e] + lru;
    }

    /** Make room and put a new entry for the page in front. */
    method Insert(id: nat, data: bytes, dirty: bool) returns (ok: bool, ghost writeFails: bool)
      requires Valid() && id !in items
      modifies this`items, this`lru, disk
      ensures Valid()
      ensures var room := PoolSpec.MakeRoom(old(Abs()), writeFails);
              && ok == room.Some?
              && Abs() == if ok then room.value.(slots := [Slot(id, data, dirty)] + room.value.slots) else old(Abs())
      ensures forall e :: e in lru && e !in old(lru) ==> fresh(e)
    {
      hide Matched, Slots, PoolSpec.MakeRoom;
      ok, writeFails := MakeRoom();
      if !ok { return; }
      var e := new Entry(id, data, dirty);
      SlotsPush(lru, e);
      PushFront(e);
    }

    method Get(id: nat) returns (r: Option<bytes>, ghost readFails: bool, ghost writeFails: bool)
      requires Valid()
      modifies this, disk
      ensures Valid()
      ensures (Abs(), r) == PoolSpec.Get(old(Abs()), id, readFails, writeFails)
      ensures forall e :: e in lru && e !in old(lru) ==> fresh(e)
      ensures if id in old(items) then hits == old(hits) + 1 && misses == old(misses)
              else hits == old(hits) && misses == old(misses) + 1
    {
      hide Find, Matched, Slots, Front, ToFront, PoolSpec.MakeRoom;
      readFails, writeFails := false, false;
      Cached(items, lru, id);
      if id in items {
        var e := items[id];
        hits := hits + 1;
        ghost var i := Find(Slots(lru), id);
        MoveToFront(e, i);
        return Some(e.data), false, false;
      }
      misses := misses + 1;
      r, readFails := disk.Read(id);
      if r.None? { return; }
      var ok;
      ok, writeFails := Insert(id, r.value, false);
      if !ok { r := None; }
    }

    method Put(id: nat, data: bytes, dirty: bool) returns (ok: bool, ghost writeFails: bool)
      requires Valid()
      modifies this, lru, disk
      ensures Valid()
      ensures (Abs(), ok) == PoolSpec.Put(old(Abs()), id, data, dirty, writeFails)
      ensures forall e :: e in lru && e !in old(lru) ==> fresh(e)
    {
      hide Find, Matched, Slots, Front, ToFront, PoolSpec.MakeRoom;
      writeFails := false;
      Cached(items, lru, id);
      if id in items {
        var e := items[id];
        ghost var i := Find(Slots(lru), id);
        UniqueAt(i);
        e.data := data;
        e.dirty := e.dirty || dirty;
        assert Slots(lru) == old(Slots(lru))[i := Slot(id, data, old(e.dirty) || dirty)];
        ToFrontUpdated(old(Slots(lru)), i, Slot(id, data, old(e.dirty) || dirty));
        MoveToFront(e, i);
        return true, false;
      }
      ok, writeFails := Insert(id, data, dirty);
    }

    /** Write out the entry if it is dirty. */
    method WriteOut(e: Entry, ghost i: nat, ghost ids: seq<nat>, ghost start: PoolSpec.Pool) returns (ok: bool)
      requires Valid() && i < |lru| && lru[i] == e && Abs() == FlushSome(start, ids)
      modifies e, disk
      ensures Valid()
      ensures Abs() == FlushSome(start, if ok then ids + [e.id] else ids)
    {
      hide Find, Matched, Slots;
      assert (ids + [e.id])[..|ids|] == ids;
      IndexOf(items, lru, i);
      UniqueAt(i);
      ok := true;
      if e.dirty {
        ok := disk.Write(e.id, e.data);
        if !ok { return; }
        e.dirty := false;
        assert Slots(lru) == old(Slots(lru))[i := old(Slots(lru))[i].(dirty := false)];
      }
    }

    /** Write out every dirty page, in the map's order, stopping at the first failure. */
    method Flush() returns (ok: bool, ghost ids: seq<nat>)
      requires Valid()
      modifies lru, disk
      ensures Valid()
      ensures Abs() == FlushSome(old(Abs()), ids)
      ensures ok ==> forall id :: id in items ==> id in ids
    {
      hide Find, Matched, Slots, FlushSome;
      FlushNone(Abs());
      var todo := items.Keys;
      ids := [];
      while todo != {}
        invariant Valid() && todo <= items.Keys
        invariant forall id :: id in items ==> id in todo || id in ids
        invariant Abs() == FlushSome(old(Abs()), ids)
      {
        var id :| id in todo;
        var e := items[id];
        Cached(items, lru, id);
        ok := WriteOut(e, Find(Slots(lru), id), ids, old(Abs()));
        if !ok { return; }
        ids := ids + [id];
        todo := todo - {id};
      }
      ok := true;
    }
  }

  lemma {:induction false} AllFlushed(items: map<nat, Entry>, lru: seq<Entry>, ids: seq<nat>)
    requires Matched(items, lru) && forall id :: id in items ==> id in ids
    ensures forall i :: 0 <= i < |lru| ==> lru[i].id in ids
  {
  }

  lemma FlushNone(p: PoolSpec.Pool)
    ensures FlushSome(p, []) == p
  {
  }

  lemma {:induction false} ToFrontUpdated(slots: seq<Slot>, i: nat, s: Slot)
    requires i < |slots|
    ensures ToFront(slots[i := s], i, s) == ToFront(slots, i, s)
  {
  }

  /** The pages as the layers above see them. */
  ghost function View(p: PoolSpec.Pool, n: nat): (pages: seq<bytes>)
    requires forall id: nat :: id < n ==> Look(p, id).Some?
    ensures |pages| == n && forall id: nat :: id < n ==> pages[id] == Look(p, id).value
  {
    seq(n, id requires 0 <= id < n => Look(p, id).value)
  }

  class Pager {
    const pool: BufferPool
    var numPages: nat

    ghost predicate Valid()
      reads this, pool, pool.disk, pool.lru
    {
      && pool.Valid() && Ok(pool.Abs())
      && numPages < 0x1_0000_0000
      && forall id: nat :: id < numPages <==> Look(pool.Abs(), id).Some?
    }

    ghost function Pages(): seq<bytes>
      requires Valid()
      reads this, pool, pool.disk, pool.lru
    {
      View(pool.Abs(), numPages)
    }

    /** Open a file of `numPages` whole pages. */
    constructor (disk: Disk, numPages: nat)
      requires numPages < 0x1_0000_0000 && forall id: nat :: id in disk.blocks <==> id < numPages
      ensures Valid() && pool.disk == disk && pool.lru == []
      ensures |Pages()| == numPages && forall id: nat :: id < numPages ==> Pages()[id] == disk.blocks[id]
    {
      pool := new BufferPool(64, disk);
      this.numPages := numPages;
    }

    method AllocatePage() returns (r: Option<bytes>)
      requires Valid() && numPages < 0xFFFF_FFFF
      modifies this, pool, pool.lru, pool.disk
      ensures Valid()
      ensures r.Some? ==> P.Holds(r.value, old(numPages), [], P.NO_PAGE) && Pages() == old(Pages()) + [r.value]
      ensures r.None? ==> Pages() == old(Pages())
    {
      hide Ok, Look, Find, Slots, Matched, PoolSpec.Put, PoolSpec.Get, P.Holds;
      var id := numPages;
      var data := EmptyPage(id);
      numPages := numPages + 1;
      var ok;
      ghost var wf;
      PutOkAny(pool.Abs(), id, data);
      ok, wf := pool.Put(id, data, true);
      if !ok { numPages := numPages - 1; return None; }
      r := Some(data);
    }

    method ReadPage(id: nat) returns (r: Option<bytes>)
      requires Valid()
      modifies pool, pool.disk
      ensures Valid() && Pages() == old(Pages())
      ensures id >= numPages ==> r.None?
      ensures r.Some? ==> id < numPages && r.value == Pages()[id]
    {
      hide Ok, Look, Find, Slots, Matched, PoolSpec.Put, PoolSpec.Get, P.Holds;
      if id >= numPages { return None; }
      ghost var rf, wf;
      GetOkAny(pool.Abs(), id);
      r, rf, wf := pool.Get(id);
    }

    method WritePage(id: nat, data: bytes) returns (ok: bool)
      requires Valid()
      modifies pool, pool.lru, pool.disk
      ensures Valid()
      ensures id >= numPages ==> !ok
      ensures Pages() == if ok then old(Pages())[id := data] else old(Pages())
    {
      hide Ok, Look, Find, Slots, Matched, PoolSpec.Put, PoolSpec.Get, P.Holds;
      if id >= numPages { return false; }
      ghost var wf;
      PutOkAny(pool.Abs(), id, data);
      ok, wf := pool.Put(id, data, true);
    }

    /** A flush changes no page; a successful one leaves the file equal to the pages. */
    method Flush() returns (ok: bool)
      requires Valid()
      modifies pool.lru, pool.disk
      ensures Valid() && Pages() == old(Pages())
      ensures ok ==> forall id: nat :: id < numPages ==> id in pool.disk.blocks && pool.disk.blocks[id] == Pages()[id]
    {
      hide Ok, Look, Find, Slots, Matched, FlushSome;
      ghost var was := pool.Abs();
      ghost var ids;
      ok, ids := pool.Flush();
      FlushOk(was, ids);
      if ok {
        OkDistinct(was);
        AllFlushed(pool.items, pool.lru, ids);
        forall id: nat | id < numPages ensures id in pool.disk.blocks && pool.disk.blocks[id] == Pages()[id] {
          FlushedDiskIsView(was, ids, id);
        }
      }
    }
  }

  /** The bytes of a new page. */
  method EmptyPage(id: nat) returns (data: bytes)
    requires id < 0x1_0000_0000
    ensures P.Holds(data, id, [], P.NO_PAGE)
  {
    var page := new P.Page(id);
    data := page.data[..];
  }

  lemma {:induction false} PutOkAny(p: PoolSpec.Pool, id: nat, data: bytes)
    requires Ok(p)
    ensures forall wf :: var (q, ok) := Put(p, id, data, true, wf);
              if ok then Ok(q) && Look(q, id) == Some(data) && (forall x :: x != id ==> Look(q, x) == Look(p, x))
              else q == p
  {
    forall wf ensures var (q, ok) := Put(p, id, data, true, wf);
              if ok then Ok(q) && Look(q, id) == Some(data) && (forall x :: x != id ==> Look(q, x) == Look(p, x))
              else q == p
    {
      hide Look, Put, Ok;
      PutOk(p, id, data, true, wf);
    }
  }

  lemma {:induction false} GetOkAny(p: PoolSpec.Pool, id: nat)
    requires Ok(p)
    ensures forall rf, wf :: var (q, r) := Get(p, id, rf, wf);
              Ok(q) && (forall x :: Look(q, x) == Look(p, x)) && (r.Some? ==> r == Look(p, id))
  {
    forall rf, wf ensures var (q, r) := Get(p, id, rf, wf);
              Ok(q) && (forall x :: Look(q, x) == Look(p, x)) && (r.Some? ==> r == Look(p, id))
    {
      hide Look, Get, Ok;
      GetOk(p, id, rf, wf);
    }
  }
}
