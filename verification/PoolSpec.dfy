/** The buffer pool as a value: slots from most to least recently used, over a disk. */
module PoolSpec {
  import opened Common
  import opened Bytes

  datatype Slot = Slot(id: nat, data: bytes, dirty: bool)

  datatype Pool = Pool(capacity: nat, slots: seq<Slot>, disk: map<nat, bytes>)

  ghost predicate Distinct(slots: seq<Slot>)
  {
    forall i, j :: 0 <= i < j < |slots| ==> slots[i].id != slots[j].id
  }

  /** Bounded, one slot per page, and a clean slot holds what the disk holds. */
  ghost predicate Ok(p: Pool)
  {
    && |p.slots| <= p.capacity && p.capacity >= 1
    && Distinct(p.slots)
    && forall i :: 0 <= i < |p.slots| && !p.slots[i].dirty ==>
         p.slots[i].id in p.disk && p.disk[p.slots[i].id] == p.slots[i].data
  }

  /** Where a page is cached, or the number of slots. */
  function Find(slots: seq<Slot>, id: nat): (i: nat)
    ensures i <= |slots| && (i < |slots| ==> slots[i].id == id)
    ensures forall j :: 0 <= j < i ==> slots[j].id != id
  {
    if slots == [] || slots[0].id == id then 0 else 1 + Find(slots[1..], id)
  }

  /** What the page holds as seen through the cache. */
  function Look(p: Pool, id: nat): Option<bytes>
  {
    var i := Find(p.slots, id);
    if i < |p.slots| then Some(p.slots[i].data)
    else if id in p.disk then Some(p.disk[id])
    else None
  }

  function ToFront(slots: seq<Slot>, i: nat, s: Slot): seq<Slot>
    requires i < |slots|
  {
    [s] + slots[..i] + slots[i + 1..]
  }

  /** Evict the last slot if the pool is full, writing it out first when dirty; None when that write fails. */
  function MakeRoom(p: Pool, writeFails: bool): Option<Pool>
    requires p.capacity >= 1
  {
    if |p.slots| < p.capacity then Some(p)
    else
      var victim := p.slots[|p.slots| - 1];
      if victim.dirty && writeFails then None
      else Some(p.(slots := p.slots[..|p.slots| - 1],
                   disk := if victim.dirty then p.disk[victim.id := victim.data] else p.disk))
  }

  /** The end of a miss, under the lock again, with the page as it was read without the lock. */
  function FinishGet(p: Pool, id: nat, read: bytes, writeFails: bool): (Pool, Option<bytes>)
    requires p.capacity >= 1
  {
    var i := Find(p.slots, id);
    if i < |p.slots| then (p.(slots := ToFront(p.slots, i, p.slots[i])), Some(p.slots[i].data))
    else
      match MakeRoom(p, writeFails)
      case None => (p, None)
      case Some(q) => (q.(slots := [Slot(id, read, false)] + q.slots), Some(read))
  }

  /** A whole Get with nothing in between. */
  function Get(p: Pool, id: nat, readFails: bool, writeFails: bool): (Pool, Option<bytes>)
    requires p.capacity >= 1
  {
    var i := Find(p.slots, id);
    if i < |p.slots| then (p.(slots := ToFront(p.slots, i, p.slots[i])), Some(p.slots[i].data))
    else if readFails || id !in p.disk then (p, None)
    else FinishGet(p, id, p.disk[id], writeFails)
  }

  function Put(p: Pool, id: nat, data: bytes, dirty: bool, writeFails: bool): (Pool, bool)
    requires p.capacity >= 1
  {
    var i := Find(p.slots, id);
    if i < |p.slots| then (p.(slots := ToFront(p.slots, i, Slot(id, data, p.slots[i].dirty || dirty))), true)
    else
      match MakeRoom(p, writeFails)
      case None => (p, false)
      case Some(q) => (q.(slots := [Slot(id, data, dirty)] + q.slots), true)
  }

  /** Write out the dirty slots among `ids`, in that order. */
  function FlushSome(p: Pool, ids: seq<nat>): Pool
  {
    if ids == [] then p
    else
      var q := FlushSome(p, ids[..|ids| - 1]);
      var i := Find(q.slots, ids[|ids| - 1]);
      if i < |q.slots| && q.slots[i].dirty then
        q.(slots := q.slots[i := q.slots[i].(dirty := false)], disk := q.disk[q.slots[i].id := q.slots[i].data])
      else q
  }

  // ------------------------------------------------------------- one call

  lemma {:induction false} FindOf(slots: seq<Slot>, i: nat)
    requires Distinct(slots) && i < |slots|
    ensures Find(slots, slots[i].id) == i
  {
    hide Find;
    var j := Find(slots, slots[i].id);
    assert j < |slots| ==> slots[j].id == slots[i].id;
  }

  lemma {:induction false} FindUnique(slots: seq<Slot>, id: nat, i: nat)
    requires i <= |slots| && (i < |slots| ==> slots[i].id == id)
    requires forall j :: 0 <= j < i ==> slots[j].id != id
    ensures Find(slots, id) == i
  {
    hide Find;
    var j := Find(slots, id);
  }

  lemma {:induction false} ToFrontAt(slots: seq<Slot>, i: nat, s: Slot)
    requires i < |slots|
    ensures |ToFront(slots, i, s)| == |slots|
    ensures forall j :: 0 <= j < |slots| ==>
      ToFront(slots, i, s)[j] == if j == 0 then s else if j <= i then slots[j - 1] else slots[j]
  {
  }

  lemma {:induction false} ToFrontDistinct(slots: seq<Slot>, i: nat, s: Slot)
    requires Distinct(slots) && i < |slots| && s.id == slots[i].id
    ensures Distinct(ToFront(slots, i, s))
  {
    ToFrontAt(slots, i, s);
  }

  lemma {:induction false} ToFrontFind(slots: seq<Slot>, i: nat, s: Slot, x: nat)
    requires Distinct(slots) && i < |slots| && s.id == slots[i].id && x != s.id
    ensures var j := Find(slots, x);
            Find(ToFront(slots, i, s), x) == if j < i then j + 1 else j
  {
    hide Find, Distinct;
    ToFrontAt(slots, i, s);
    var j := Find(slots, x);
    FindUnique(ToFront(slots, i, s), x, if j < i then j + 1 else j);
  }

  lemma {:induction false} ToFrontLook(p: Pool, i: nat, s: Slot, x: nat)
    requires Distinct(p.slots) && i < |p.slots| && s.id == p.slots[i].id
    ensures var q := p.(slots := ToFront(p.slots, i, s));
            Look(q, x) == if x == s.id then Some(s.data) else Look(p, x)
  {
    hide Find, Distinct;
    ToFrontAt(p.slots, i, s);
    if x == s.id {
      FindUnique(ToFront(p.slots, i, s), x, 0);
    } else {
      ToFrontFind(p.slots, i, s, x);
    }
  }

  lemma {:induction false} ToFrontOk(p: Pool, i: nat, s: Slot)
    requires Ok(p) && i < |p.slots| && s.id == p.slots[i].id
    ensures var q := p.(slots := ToFront(p.slots, i, s));
            && Distinct(q.slots) && |q.slots| == |p.slots|
            && (Ok(q) <==> s.dirty || (s.id in p.disk && p.disk[s.id] == s.data))
            && Look(q, s.id) == Some(s.data)
            && forall x :: x != s.id ==> Look(q, x) == Look(p, x)
  {
    hide Find, Distinct, Look;
    ToFrontAt(p.slots, i, s);
    ToFrontDistinct(p.slots, i, s);
    var q := p.(slots := ToFront(p.slots, i, s));
    forall x ensures Look(q, x) == if x == s.id then Some(s.data) else Look(p, x) {
      ToFrontLook(p, i, s, x);
    }
    assert q.slots[0] == s;
  }

  lemma {:induction false} MakeRoomOk(p: Pool, writeFails: bool)
    requires Ok(p) && MakeRoom(p, writeFails).Some?
    ensures var q := MakeRoom(p, writeFails).value;
            && Ok(q) && |q.slots| < q.capacity == p.capacity
            && q.slots <= p.slots
            && forall x :: Look(q, x) == Look(p, x)
  {
    hide Find;
    var q := MakeRoom(p, writeFails).value;
    if |p.slots| >= p.capacity {
      var n := |p.slots| - 1;
      forall x ensures Look(q, x) == Look(p, x) {
        var j := Find(p.slots, x);
        FindUnique(q.slots, x, if j < n then j else n);
      }
    }
  }

  lemma {:induction false} PushLook(q: Pool, s: Slot, x: nat)
    requires Find(q.slots, s.id) == |q.slots|
    ensures Look(q.(slots := [s] + q.slots), x) == if x == s.id then Some(s.data) else Look(q, x)
  {
    hide Find;
    PushFind(q.slots, s, x);
    var more := [s] + q.slots;
    var i := Find(q.slots, x);
    assert more[0] == s && (i < |q.slots| ==> more[i + 1] == q.slots[i]);
  }

  lemma PushFind(slots: seq<Slot>, s: Slot, x: nat)
    ensures Find([s] + slots, x) == if x == s.id then 0 else Find(slots, x) + 1
  {
    assert ([s] + slots)[1..] == slots;
  }

  lemma {:induction false} PushOk(q: Pool, s: Slot)
    requires Ok(q) && |q.slots| < q.capacity && Find(q.slots, s.id) == |q.slots|
    ensures var r := q.(slots := [s] + q.slots);
            && Distinct(r.slots) && |r.slots| <= r.capacity
            && (Ok(r) <==> s.dirty || (s.id in q.disk && q.disk[s.id] == s.data))
            && Look(r, s.id) == Some(s.data)
            && forall x :: x != s.id ==> Look(r, x) == Look(q, x)
  {
    hide Find, Look;
    var r := q.(slots := [s] + q.slots);
    forall x ensures Look(r, x) == if x == s.id then Some(s.data) else Look(q, x) {
      PushLook(q, s, x);
    }
    assert forall j :: 0 <= j < |q.slots| ==> r.slots[j + 1] == q.slots[j];
    assert r.slots[0] == s;
  }

  /**
   * The end of a miss: the pool stays sound, and every page reads as before,
   * exactly when the page was cached meanwhile or the disk still holds what
   * was read.
   */
  lemma {:induction false} FinishGetOk(p: Pool, id: nat, read: bytes, writeFails: bool)
    requires Ok(p)
    ensures var (q, r) := FinishGet(p, id, read, writeFails);
            && q.capacity == p.capacity
            && (r.None? ==> q == p)
            && (r.Some? ==>
                  && (Ok(q) <==> Find(p.slots, id) < |p.slots| || (id in p.disk && p.disk[id] == read))
                  && (Ok(q) <==> Look(p, id) == r)
                  && (forall x :: x != id ==> Look(q, x) == Look(p, x))
                  && Look(q, id) == r)
  {
    hide Find, Ok, ToFront, MakeRoom;
    CapacityPositive(p);
    var i := Find(p.slots, id);
    if i < |p.slots| {
      ToFrontOk(p, i, p.slots[i]);
      LookAtFound(p, i);
    } else if MakeRoom(p, writeFails).Some? {
      MakeRoomOk(p, writeFails);
      var q := MakeRoom(p, writeFails).value;
      StaysMissing(p, q, id);
      StillOnDisk(p, writeFails, id);
      PushOk(q, Slot(id, read, false));
    }
  }

  /** A read with nothing in between changes no page as seen through the cache and returns the page. */
  lemma {:induction false} GetOk(p: Pool, id: nat, readFails: bool, writeFails: bool)
    requires Ok(p)
    ensures var (q, r) := Get(p, id, readFails, writeFails);
            && Ok(q) && q.capacity == p.capacity
            && (forall x :: Look(q, x) == Look(p, x))
            && (if r.Some? then r == Look(p, id) else q == p)
  {
    hide Find, Ok, ToFront, MakeRoom;
    CapacityPositive(p);
    var read := if id in p.disk then p.disk[id] else [];
    FinishGetOk(p, id, read, writeFails);
  }

  /**
   * With other calls between the two halves of a Get, a page can be lost: a
   * reader of page 1 misses and reads it, a writer puts a new page 1 which
   * another page then pushes out to the disk, and the reader's second half
   * caches the page it read long before.
   */
  lemma {:induction false} StaleRead(old1: bytes, new1: bytes, other: bytes)
    requires old1 != new1
    ensures var p0 := Pool(1, [], map[1 := old1]);
            var p1 := Put(p0, 1, new1, true, false).0;
            var p2 := Put(p1, 2, other, true, false).0;
            var p3 := FinishGet(p2, 1, p0.disk[1], false).0;
            && Ok(p0) && Ok(p1) && Ok(p2) && Look(p2, 1) == Some(new1)
            && !Ok(p3) && Look(p3, 1) == Some(old1)
  {
    hide Find;
    var p0 := Pool(1, [], map[1 := old1]);
    FindUnique(p0.slots, 1, 0);
    PutOk(p0, 1, new1, true, false);
    var p1 := Put(p0, 1, new1, true, false).0;
    assert p1.slots == [Slot(1, new1, true)];
    FindUnique(p1.slots, 2, 1);
    PutOk(p1, 2, other, true, false);
    var p2 := Put(p1, 2, other, true, false).0;
    assert p2.slots == [Slot(2, other, true)];
    FindUnique(p2.slots, 1, 1);
    FinishGetOk(p2, 1, old1, false);
  }

  lemma CapacityPositive(p: Pool)
    requires Ok(p)
    ensures p.capacity >= 1
  {
  }

  lemma {:induction false} LookAtFound(p: Pool, i: nat)
    requires Ok(p) && i < |p.slots|
    ensures Look(p, p.slots[i].id) == Some(p.slots[i].data)
    ensures p.slots[i].dirty || (p.slots[i].id in p.disk && p.disk[p.slots[i].id] == p.slots[i].data)
  {
    FindOf(p.slots, i);
  }

  lemma {:induction false} StaysMissing(p: Pool, q: Pool, id: nat)
    requires q.slots <= p.slots && Find(p.slots, id) == |p.slots|
    ensures Find(q.slots, id) == |q.slots|
  {
    hide Find;
    FindUnique(q.slots, id, |q.slots|);
  }

  /** Making room writes only the victim, so a page that is not cached keeps its disk contents. */
  lemma {:induction false} StillOnDisk(p: Pool, writeFails: bool, id: nat)
    requires Ok(p) && MakeRoom(p, writeFails).Some? && Find(p.slots, id) == |p.slots|
    ensures var q := MakeRoom(p, writeFails).value;
            (id in q.disk <==> id in p.disk) && (id in p.disk ==> q.disk[id] == p.disk[id])
  {
    hide Find;
  }

  /** The slot of `id`, if any, holds changes the disk has not seen. */
  predicate Unsaved(p: Pool, id: nat)
  {
    var i := Find(p.slots, id);
    i < |p.slots| && p.slots[i].dirty
  }

  /**
   * A successful Put replaces the page as seen through the cache and no other.
   * The pool stays sound exactly when the page is marked dirty, was dirty
   * already, or is what the disk holds.
   */
  lemma {:induction false} PutOk(p: Pool, id: nat, data: bytes, dirty: bool, writeFails: bool)
    requires Ok(p)
    ensures var (q, ok) := Put(p, id, data, dirty, writeFails);
            && q.capacity == p.capacity
            && (!ok ==> q == p)
            && (ok ==>
                  && Look(q, id) == Some(data)
                  && (forall x :: x != id ==> Look(q, x) == Look(p, x))
                  && (Ok(q) <==> dirty || Unsaved(p, id) || (id in p.disk && p.disk[id] == data)))
  {
    hide Find, Ok, ToFront, MakeRoom;
    CapacityPositive(p);
    var i := Find(p.slots, id);
    if i < |p.slots| {
      ToFrontOk(p, i, Slot(id, data, p.slots[i].dirty || dirty));
    } else if MakeRoom(p, writeFails).Some? {
      MakeRoomOk(p, writeFails);
      var q := MakeRoom(p, writeFails).value;
      StaysMissing(p, q, id);
      StillOnDisk(p, writeFails, id);
      PushOk(q, Slot(id, data, dirty));
    }
  }

  lemma {:induction false} FlushOne(p: Pool, i: nat)
    requires Ok(p) && i < |p.slots|
    ensures var q := p.(slots := p.slots[i := p.slots[i].(dirty := false)], disk := p.disk[p.slots[i].id := p.slots[i].data]);
            Ok(q) && forall x :: Look(q, x) == Look(p, x)
  {
    hide Find;
    var q := p.(slots := p.slots[i := p.slots[i].(dirty := false)], disk := p.disk[p.slots[i].id := p.slots[i].data]);
    forall x ensures Look(q, x) == Look(p, x) {
      FindUnique(q.slots, x, Find(p.slots, x));
      if Find(p.slots, x) == |p.slots| { assert p.slots[i].id != x; }
    }
  }

  /** Flushing some slots changes no page as seen through the cache. */
  lemma {:induction false} FlushOk(p: Pool, ids: seq<nat>)
    requires Ok(p)
    ensures var q := FlushSome(p, ids);
            && Ok(q) && q.capacity == p.capacity && |q.slots| == |p.slots|
            && (forall x :: Look(q, x) == Look(p, x))
            && (forall i :: 0 <= i < |p.slots| ==> q.slots[i].id == p.slots[i].id && q.slots[i].data == p.slots[i].data)
            && (forall i :: 0 <= i < |p.slots| && p.slots[i].id in ids ==> !q.slots[i].dirty)
            && (forall i :: 0 <= i < |p.slots| && !p.slots[i].dirty ==> !q.slots[i].dirty)
    decreases |ids|
  {
    hide Find, Ok, Look;
    if ids != [] {
      var n := |ids| - 1;
      FlushOk(p, ids[..n]);
      var mid := FlushSome(p, ids[..n]);
      var i := Find(mid.slots, ids[n]);
      if i < |mid.slots| && mid.slots[i].dirty {
        FlushOne(mid, i);
      }
      OkDistinct(p);
      assert forall x :: x in ids <==> x in ids[..n] || x == ids[n];
    }
  }

  lemma OkDistinct(p: Pool)
    requires Ok(p)
    ensures Distinct(p.slots)
  {
  }

  /** A flush of every cached page leaves the disk equal to the cached view. */
  lemma {:induction false} FlushedDiskIsView(p: Pool, ids: seq<nat>, x: nat)
    requires Ok(p) && forall i :: 0 <= i < |p.slots| ==> p.slots[i].id in ids
    ensures var q := FlushSome(p, ids);
            Look(p, x) == if x in q.disk then Some(q.disk[x]) else None
  {
    hide Find, FlushSome;
    FlushOk(p, ids);
    var q := FlushSome(p, ids);
    assert Look(q, x) == Look(p, x);
  }

  // ------------------------------------------------------------ whole runs

  /** A call, with what the disk does to it. */
  datatype Call =
    | Getting(id: nat, readFails: bool, writeFails: bool)
    | Putting(id: nat, data: bytes, writeFails: bool)   // the pager always marks pages dirty
    | Flushing(ids: seq<nat>)                           // as far as the writes went

  function Serve(p: Pool, c: Call): Pool
    requires p.capacity >= 1
  {
    match c
    case Getting(id, rf, wf) => Get(p, id, rf, wf).0
    case Putting(id, data, wf) => Put(p, id, data, true, wf).0
    case Flushing(ids) => FlushSome(p, ids)
  }

  /** The page the call used, if it succeeded in using one. */
  function Used(p: Pool, c: Call): Option<nat>
    requires p.capacity >= 1
  {
    match c
    case Getting(id, rf, wf) => if Get(p, id, rf, wf).1.Some? then Some(id) else None
    case Putting(id, data, wf) => if Put(p, id, data, true, wf).1 then Some(id) else None
    case Flushing(_) => None
  }

  ghost function Run(p: Pool, calls: seq<Call>): (q: Pool)
    requires Ok(p)
    ensures Ok(q) && q.capacity == p.capacity
  {
    if calls == [] then p
    else
      var q := Run(p, calls[..|calls| - 1]);
      ServeOk(q, calls[|calls| - 1]);
      Serve(q, calls[|calls| - 1])
  }

  lemma {:induction false} ServeOk(p: Pool, c: Call)
    requires Ok(p)
    ensures Ok(Serve(p, c)) && Serve(p, c).capacity == p.capacity
  {
    hide Find, Get, Put, FlushSome;
    match c
    case Getting(id, rf, wf) => GetOk(p, id, rf, wf);
    case Putting(id, data, wf) => PutOk(p, id, data, true, wf);
    case Flushing(ids) => FlushOk(p, ids);
  }

  /** The last page put under `x`, or else what was there at the start. */
  ghost function Expected(p: Pool, calls: seq<Call>, x: nat): Option<bytes>
    requires Ok(p)
  {
    if calls == [] then Look(p, x)
    else
      var before, last := calls[..|calls| - 1], calls[|calls| - 1];
      if last.Putting? && last.id == x && Used(Run(p, before), last).Some? then Some(last.data)
      else Expected(p, before, x)
  }

  /** Over every run, each page reads as the last page put for it, or else as the original disk page. */
  lemma {:induction false} RunShowsLastPut(p: Pool, calls: seq<Call>, x: nat)
    requires Ok(p)
    ensures Look(Run(p, calls), x) == Expected(p, calls, x)
  {
    hide Find, Look, Get, Put, FlushSome, Ok;
    if calls != [] {
      var before, last := calls[..|calls| - 1], calls[|calls| - 1];
      RunShowsLastPut(p, before, x);
      var q := Run(p, before);
      match last
      case Getting(id, rf, wf) => GetOk(q, id, rf, wf);
      case Putting(id, data, wf) => PutOk(q, id, data, true, wf);
      case Flushing(ids) => FlushOk(q, ids);
    }
  }

  /** A successful Get after any run returns the last page put, or else the original disk page. */
  lemma {:induction false} GetReturnsLastPut(p: Pool, calls: seq<Call>, id: nat, readFails: bool, writeFails: bool)
    requires Ok(p)
    ensures var r := Get(Run(p, calls), id, readFails, writeFails).1;
            r.Some? ==> r == Expected(p, calls, id)
  {
    hide Look, Get, Run, Expected;
    RunShowsLastPut(p, calls, id);
    GetOk(Run(p, calls), id, readFails, writeFails);
  }

  // ------------------------------------------------------ recency of use

  ghost function Uses(p: Pool, calls: seq<Call>): seq<nat>
    requires Ok(p)
  {
    if calls == [] then []
    else
      var before, last := calls[..|calls| - 1], calls[|calls| - 1];
      var u := Used(Run(p, before), last);
      Uses(p, before) + if u.Some? then [u.value] else []
  }

  function LastUse(uses: seq<nat>, id: nat): int
  {
    if uses == [] then -1 else if uses[|uses| - 1] == id then |uses| - 1 else LastUse(uses[..|uses| - 1], id)
  }

  /** The slots are ordered by last use, the most recent first. */
  ghost predicate ByRecency(slots: seq<Slot>, uses: seq<nat>)
  {
    forall i, j :: 0 <= i < j < |slots| ==> LastUse(uses, slots[i].id) > LastUse(uses, slots[j].id)
  }

  lemma {:induction false} LastUsePush(uses: seq<nat>, id: nat, x: nat)
    ensures LastUse(uses + [id], x) == if x == id then |uses| else LastUse(uses, x)
    ensures LastUse(uses, x) < |uses|
  {
    LastUseBelow(uses, x);
    assert (uses + [id])[..|uses|] == uses;
  }

  lemma {:induction false} LastUseBelow(uses: seq<nat>, x: nat)
    ensures LastUse(uses, x) < |uses|
  {
    if uses != [] && uses[|uses| - 1] != x { LastUseBelow(uses[..|uses| - 1], x); }
  }

  lemma {:induction false} ToFrontRecency(slots: seq<Slot>, i: nat, s: Slot, uses: seq<nat>)
    requires ByRecency(slots, uses) && Distinct(slots) && i < |slots| && s.id == slots[i].id
    ensures ByRecency(ToFront(slots, i, s), uses + [s.id])
  {
    hide LastUse;
    var t := ToFront(slots, i, s);
    forall x ensures LastUse(uses + [s.id], x) == (if x == s.id then |uses| else LastUse(uses, x)) && LastUse(uses, x) < |uses| {
      LastUsePush(uses, s.id, x);
    }
    assert forall j :: 0 <= j < |t| ==> t[j] == if j == 0 then s else if j <= i then slots[j - 1] else slots[j];
  }

  lemma {:induction false} PushRecency(slots: seq<Slot>, k: nat, s: Slot, uses: seq<nat>)
    requires ByRecency(slots, uses) && k <= |slots| && Find(slots, s.id) == |slots|
    ensures ByRecency([s] + slots[..k], uses + [s.id])
  {
    hide LastUse, Find;
    forall x ensures LastUse(uses + [s.id], x) == (if x == s.id then |uses| else LastUse(uses, x)) && LastUse(uses, x) < |uses| {
      LastUsePush(uses, s.id, x);
    }
  }

  /** What making room leaves of the slots. */
  lemma MakeRoomSlots(p: Pool, writeFails: bool)
    requires p.capacity >= 1 && |p.slots| <= p.capacity && MakeRoom(p, writeFails).Some?
    ensures MakeRoom(p, writeFails).value.slots == p.slots[..if |p.slots| < p.capacity then |p.slots| else |p.slots| - 1]
  {
  }

  lemma {:induction false} ServeRecency(p: Pool, c: Call, uses: seq<nat>)
    requires Ok(p) && ByRecency(p.slots, uses)
    ensures ByRecency(Serve(p, c).slots, uses + if Used(p, c).Some? then [Used(p, c).value] else [])
  {
    hide Find, LastUse, ByRecency, ToFront, MakeRoom, FlushSome;
    assert uses + [] == uses;
    var keep := if |p.slots| < p.capacity then |p.slots| else |p.slots| - 1;
    match c
    case Getting(id, rf, wf) =>
      var i := Find(p.slots, id);
      if i < |p.slots| { ToFrontRecency(p.slots, i, p.slots[i], uses); }
      else if Get(p, id, rf, wf).1.Some? {
        MakeRoomSlots(p, wf);
        PushRecency(p.slots, keep, Slot(id, p.disk[id], false), uses);
      }
    case Putting(id, data, wf) =>
      var i := Find(p.slots, id);
      if i < |p.slots| { ToFrontRecency(p.slots, i, Slot(id, data, true), uses); }
      else if MakeRoom(p, wf).Some? {
        MakeRoomSlots(p, wf);
        PushRecency(p.slots, keep, Slot(id, data, true), uses);
      }
    case Flushing(ids) =>
      FlushOk(p, ids);
      SameIdsRecency(p.slots, FlushSome(p, ids).slots, uses);
  }

  lemma SameIdsRecency(a: seq<Slot>, b: seq<Slot>, uses: seq<nat>)
    requires ByRecency(a, uses) && |a| == |b| && forall i :: 0 <= i < |a| ==> a[i].id == b[i].id
    ensures ByRecency(b, uses)
  {
  }

  /** Over every run of an empty pool the slots stay in order of last use, within the capacity. */
  lemma {:induction false} RunKeepsRecency(p: Pool, calls: seq<Call>)
    requires Ok(p) && p.slots == []
    ensures ByRecency(Run(p, calls).slots, Uses(p, calls))
    ensures |Run(p, calls).slots| <= p.capacity
  {
    hide Serve, Used, LastUse;
    if calls != [] {
      var before, last := calls[..|calls| - 1], calls[|calls| - 1];
      RunKeepsRecency(p, before);
      ServeRecency(Run(p, before), last, Uses(p, before));
    }
  }

  /** The page evicted next has not been used since any other cached page was. */
  lemma {:induction false} VictimIsLeastRecent(p: Pool, calls: seq<Call>, x: nat)
    requires Ok(p) && p.slots == []
    ensures var q := Run(p, calls);
            var n := |q.slots|;
            Find(q.slots, x) < n && x != q.slots[n - 1].id ==>
              LastUse(Uses(p, calls), q.slots[n - 1].id) < LastUse(Uses(p, calls), x)
  {
    hide Run, Uses, LastUse, Find;
    RunKeepsRecency(p, calls);
  }
}
