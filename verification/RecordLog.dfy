/** The page chain of a store: records appended to the last page, a new page linked in when it is full. */
module RecordLog {
  import opened Bytes
  import opened Page

  /** Record bytes that fit on an empty page. */
  const CAPACITY: nat := PAGE_SIZE - HEADER_SIZE

  // ------------------------------------------------------- chains as values

  ghost function NextOf(ids: seq<nat>, i: nat): int
    requires i < |ids|
  {
    if i + 1 < |ids| then ids[i + 1] else NO_PAGE
  }

  /** Following the next links from `ids[0]` visits the pages `ids`, which hold the records `held`. */
  ghost predicate Linked(imgs: seq<bytes>, ids: seq<nat>, held: seq<seq<Rec>>)
  {
    && |imgs| < NO_PAGE
    && |ids| == |held|
    && (forall i :: 0 <= i < |ids| ==> ids[i] < |imgs|)
    && (forall i, j :: 0 <= i < j < |ids| ==> ids[i] < ids[j])
    && (forall i :: 0 <= i < |ids| ==> Holds(imgs[ids[i]], ids[i], held[i], NextOf(ids, i)))
  }

  /** Two neighbouring pages of a chain hold more record bytes than fit on one. */
  ghost predicate Dense(held: seq<seq<Rec>>)
  {
    forall i :: 0 <= i < |held| - 1 ==> RecsSize(held[i]) + RecsSize(held[i + 1]) > CAPACITY
  }

  function Concat(held: seq<seq<Rec>>): seq<Rec>
  {
    if held == [] then [] else Concat(held[..|held| - 1]) + held[|held| - 1]
  }

  lemma {:induction false} LinkedOrphan(imgs: seq<bytes>, ids: seq<nat>, held: seq<seq<Rec>>, img: bytes)
    requires Linked(imgs, ids, held) && |imgs| + 1 < NO_PAGE
    ensures Linked(imgs + [img], ids, held)
  {
    hide Holds;
  }

  lemma {:induction false} LinkedFirst(imgs: seq<bytes>, img: bytes)
    requires |imgs| + 1 < NO_PAGE && Holds(img, |imgs|, [], NO_PAGE)
    ensures Linked(imgs + [img], [|imgs|], [[]])
  {
    hide Holds;
  }

  lemma {:induction false} LinkedWritten(imgs: seq<bytes>, ids: seq<nat>, held: seq<seq<Rec>>, img: bytes, rs: seq<Rec>)
    requires Linked(imgs, ids, held) && ids != []
    requires Holds(img, ids[|ids| - 1], rs, NO_PAGE)
    ensures Linked(imgs[ids[|ids| - 1] := img], ids, held[..|ids| - 1] + [rs])
  {
    hide Holds;
  }

  lemma {:induction false} LinkedExtended(imgs: seq<bytes>, ids: seq<nat>, held: seq<seq<Rec>>, before: bytes, added: bytes, rs: seq<Rec>)
    requires Linked(imgs, ids, held) && ids != [] && |imgs| + 1 < NO_PAGE
    requires Holds(before, ids[|ids| - 1], held[|ids| - 1], |imgs|)
    requires Holds(added, |imgs|, rs, NO_PAGE)
    ensures Linked(imgs[ids[|ids| - 1] := before] + [added], ids + [|imgs|], held + [rs])
  {
    hide Holds;
    var imgs', ids', held' := imgs[ids[|ids| - 1] := before] + [added], ids + [|imgs|], held + [rs];
    forall i | 0 <= i < |ids'| ensures Holds(imgs'[ids'[i]], ids'[i], held'[i], NextOf(ids', i)) {
      if i < |ids| - 1 {
        assert ids'[i] == ids[i] != ids[|ids| - 1];
      }
    }
  }

  // --------------------------------------------------------------- the chain

  ghost function Buffers(ps: seq<Page>): set<array<byte>>
  {
    set i | 0 <= i < |ps| :: ps[i].data
  }

  ghost function ImagesOf(ps: seq<Page>): seq<bytes>
    reads Buffers(ps)
  {
    seq(|ps|, i requires 0 <= i < |ps| reads Buffers(ps) => ps[i].data[..])
  }

  class PageChain {
    var pages: seq<Page>
    var firstPage: nat
    var hasPages: bool

    ghost var ids: seq<nat>         // the pages along the chain
    ghost var held: seq<seq<Rec>>   // the records on each of them

    ghost function Arrays(): set<array<byte>>
      reads this`pages
    {
      Buffers(pages)
    }

    /** Page `i` has id `i` and a buffer of its own. */
    ghost predicate Separate()
      reads this`pages
    {
      && (forall i :: 0 <= i < |pages| ==> pages[i].Sized() && pages[i].id == i)
      && (forall i, j :: 0 <= i < j < |pages| ==> pages[i].data != pages[j].data)
    }

    ghost function Images(): seq<bytes>
      reads this`pages, Arrays()
    {
      ImagesOf(pages)
    }

    ghost predicate Valid()
      reads this, Arrays()
    {
      && Separate()
      && Linked(Images(), ids, held)
      && Dense(held)
      && (hasPages <==> ids != [])
      && (if hasPages then firstPage == ids[0] == 0 else pages == [])
    }

    /** The chain is pages 0, 1, 2, ... and the file holds no others. */
    ghost predicate Contiguous()
      reads this
    {
      |ids| == |pages| && forall i :: 0 <= i < |ids| ==> ids[i] == i
    }

    /** All records along the chain, oldest first. */
    ghost function Log(): seq<Rec>
      reads this
    {
      Concat(held)
    }

    constructor ()
      ensures Valid() && Log() == [] && Contiguous() && pages == []
    {
      pages, firstPage, hasPages := [], 0, false;
      ids, held := [], [];
    }

    /** A fresh page at the end of the file, on no chain yet. */
    method AllocatePage() returns (p: Page)
      requires Separate() && |pages| + 1 < NO_PAGE
      modifies this`pages
      ensures fresh(p.data) && p.Sized() && p.id == old(|pages|)
      ensures pages == old(pages) + [p] && Separate()
      ensures Holds(p.data[..], old(|pages|), [], NO_PAGE)
      ensures Images() == old(Images()) + [p.data[..]] && Arrays() == old(Arrays()) + {p.data}
    {
      hide Holds;
      p := new Page(|pages|);
      BuffersPush(pages, p);
      pages := pages + [p];
    }

    lemma ImagesLength()
      ensures |Images()| == |pages|
    {
    }

    lemma PageAt(c: nat)
      requires Valid() && c < |ids|
      ensures ids[c] < |pages| && pages[ids[c]].Sized() && pages[ids[c]].data in Arrays()
      ensures pages[ids[c]].NextPageID() == NextOf(ids, c)
      ensures c + 1 < |ids| ==> ids[c + 1] != NO_PAGE
    {
      NextIs(Images(), ids, held, c);
    }

    /** Follow the next links to the last page. */
    method Walk() returns (p: Page)
      requires Valid() && hasPages
      ensures Valid() && ids[|ids| - 1] < |pages| && p == pages[ids[|ids| - 1]]
    {
      hide Holds, Dense, Linked, ImagesOf, Buffers;
      ghost var c := 0;
      PageAt(c);
      p := pages[firstPage];
      while p.NextPageID() != NO_PAGE
        invariant Valid()
        invariant c < |ids| && ids[c] < |pages| && p == pages[ids[c]] && p.Sized()
        invariant p.NextPageID() == NextOf(ids, c) && (c + 1 < |ids| ==> ids[c + 1] != NO_PAGE)
        decreases |ids| - c
      {
        c := c + 1;
        PageAt(c);
        p := pages[p.NextPageID()];
      }
    }

    /** The last page of the chain, allocating the first one if there is none. */
    method LastPage() returns (p: Page)
      requires Valid() && |pages| + 1 < NO_PAGE
      modifies this
      ensures Valid() && hasPages && ids[|ids| - 1] < |pages| && p == pages[ids[|ids| - 1]]
      ensures Log() == old(Log()) && (old(Contiguous()) ==> Contiguous())
      ensures old(pages) <= pages && |pages| <= old(|pages|) + 1 && fresh(Arrays() - old(Arrays()))
    {
      hide Holds, Linked, Dense, ImagesOf, Concat;
      SameLengths(Images(), ids, held);
      ImagesLength();
      if !hasPages {
        ghost var imgs := Images();
        p := AllocatePage();
        LinkedFirst(imgs, p.data[..]);
        EmptyPage();
        ids, held := [|pages| - 1], [[]];
        firstPage, hasPages := p.id, true;
        return;
      }
      p := Walk();
    }

    /** Read every record along the chain from the page bytes. */
    method ScanChain() returns (rs: seq<Rec>)
      requires Valid()
      ensures Valid() && rs == Log() && forall i :: 0 <= i < |rs| ==> Proper(rs[i])
    {
      hide Holds, Dense, Linked, ImagesOf, Concat, RecsSize;
      SameLengths(Images(), ids, held);
      rs := [];
      EmptyPage();
      if !hasPages {
        return;
      }
      var id := firstPage;
      ghost var c := 0;
      assert held[..0] == [];
      while true
        invariant Valid() && c < |ids| == |held| && id == ids[c]
        invariant rs == Concat(held[..c]) && forall i :: 0 <= i < |rs| ==> Proper(rs[i])
        decreases |ids| - c
      {
        PageAt(c);
        PageHolds(c);
        var here := ReadPage(id, held[c], NextOf(ids, c));
        ConcatPush(held, c);
        rs := rs + here;
        c := c + 1;
        if pages[id].NextPageID() == NO_PAGE {
          assert held[..c] == held;
          return;
        }
        id := pages[id].NextPageID();
      }
    }

    lemma PageHolds(c: nat)
      requires Valid() && c < |ids|
      ensures ids[c] < |pages| && pages[ids[c]].Sized() && c < |held|
      ensures Holds(pages[ids[c]].data[..], ids[c], held[c], NextOf(ids, c))
    {
    }

    /** Read the records of one page from the header to the free offset. */
    method ReadPage(id: nat, ghost held: seq<Rec>, ghost next: int) returns (rs: seq<Rec>)
      requires id < |pages| && pages[id].Sized() && 0 <= id <= NO_PAGE && 0 <= next <= NO_PAGE
      requires Holds(pages[id].data[..], id, held, next)
      ensures rs == held && forall i :: 0 <= i < |rs| ==> Proper(rs[i])
    {
      hide Holds, RecsSize, ReadRecord;
      var page := pages[id];
      HoldsHeader(page.data[..], id, held, next);
      rs := [];
      var off := HEADER_SIZE;
      NoRecords();
      assert held[..|held|] == held;
      while off < page.FreeOffset()
        invariant |rs| <= |held| && rs == held[..|rs|]
        invariant off == HEADER_SIZE + RecsSize(rs)
        invariant page.FreeOffset() == HEADER_SIZE + RecsSize(held)
        decreases |held| - |rs|
      {
        ReadHeld(page.data[..], id, held, next, |rs|);
        var r := ReadRecord(page.data[..], off).value;
        assert held[..|rs| + 1] == rs + [r];
        rs := rs + [r];
        off := off + RECORD_HEADER + |r.key| + |r.value|;
      }
      AllRead(held, |rs|);
      HeldProper(page.data[..], id, held, next);
    }

    /** Append a record to page `i`, which holds `rs` and ends the chain or is on none. */
    method WriteTo(i: nat, key: bytes, value: bytes, flag: byte, ghost rs: seq<Rec>) returns (ok: bool)
      requires Separate() && i < |pages| && Holds(Images()[i], i, rs, NO_PAGE) && (flag == LIVE || flag == TOMBSTONE)
      modifies pages[i].data
      ensures ok <==> RecsSize(rs) + RecSize(Rec(flag, key, value)) <= CAPACITY
      ensures ok ==> Holds(Images()[i], i, rs + [Rec(flag, key, value)], NO_PAGE)
      ensures |Images()| == |old(Images())| && Images() == old(Images())[i := Images()[i]]
      ensures !ok ==> Images() == old(Images())
    {
      hide Holds, RecsSize;
      ok := pages[i].WriteRecord(key, value, flag, rs, NO_PAGE);
    }

    method LinkTo(i: nat, next: u32, ghost rs: seq<Rec>)
      requires Separate() && i < |pages| && Holds(Images()[i], i, rs, NO_PAGE)
      modifies pages[i].data
      ensures Holds(Images()[i], i, rs, next)
      ensures |Images()| == |old(Images())| && Images() == old(Images())[i := Images()[i]]
    {
      hide Holds, Overwrite;
      HoldsRelinked(pages[i].data[..], i, rs, NO_PAGE, next);
      pages[i].SetNextPageID(next);
    }

    /**
     * Append one record to the chain; refused when it would not fit on an empty
     * page.  `grew` tells whether the last page was full.
     */
    method AppendRecord(key: bytes, value: bytes, flag: byte) returns (ok: bool, grew: bool)
      requires Valid() && |pages| + 2 < NO_PAGE && (flag == LIVE || flag == TOMBSTONE)
      modifies this, Arrays()
      ensures Valid() && fresh(Arrays() - old(Arrays()))
      ensures ok <==> RecSize(Rec(flag, key, value)) <= CAPACITY
      ensures Log() == if ok then old(Log()) + [Rec(flag, key, value)] else old(Log())
      ensures ok && old(Contiguous()) ==> Contiguous()
      ensures |pages| <= old(|pages|) + 2
    {
      hide Holds, Linked, Dense, RecsSize, ImagesOf, Concat;
      var last := LastPage();
      ghost var r, n, imgs := Rec(flag, key, value), |ids| - 1, Images();
      LastHolds(imgs, ids, held);
      PageAt(n);
      ok := WriteTo(last.id, key, value, flag, held[n]);
      grew := !ok;
      if ok {
        LinkedWritten(imgs, ids, held, Images()[ids[n]], held[n] + [r]);
        GrowLast(held, r);
        held := held[..n] + [held[n] + [r]];
        return;
      }
      ok := AppendOnNewPage(last, key, value, flag);
    }

    method AppendOnNewPage(last: Page, key: bytes, value: bytes, flag: byte) returns (ok: bool)
      requires Valid() && |pages| + 1 < NO_PAGE && hasPages && (flag == LIVE || flag == TOMBSTONE)
      requires ids[|ids| - 1] < |pages| && last == pages[ids[|ids| - 1]]
      requires RecsSize(held[|ids| - 1]) + RecSize(Rec(flag, key, value)) > CAPACITY
      modifies this, last.data
      ensures Valid() && fresh(Arrays() - old(Arrays()))
      ensures ok <==> RecSize(Rec(flag, key, value)) <= CAPACITY
      ensures Log() == if ok then old(Log()) + [Rec(flag, key, value)] else old(Log())
      ensures ok && old(Contiguous()) ==> Contiguous()
      ensures |pages| <= old(|pages|) + 1
    {
      hide Holds, Linked, Dense, RecsSize, ImagesOf, Buffers, Concat;
      ghost var r, n, imgs := Rec(flag, key, value), |ids| - 1, Images();
      LastHolds(imgs, ids, held);
      ImagesLength();
      var page := AllocatePage();
      NoRecords();
      ok := WriteTo(page.id, key, value, flag, []);
      if !ok {
        LinkedOrphan(imgs, ids, held, Images()[page.id]);
        assert Images() == imgs + [Images()[page.id]];
        return;
      }
      LinkTo(last.id, page.id, held[n]);
      LinkedExtended(imgs, ids, held, Images()[ids[n]], Images()[page.id], [] + [r]);
      assert Images() == imgs[ids[n] := Images()[ids[n]]] + [Images()[page.id]];
      AddLast(held, r);
      ids, held := ids + [page.id], held + [[r]];
    }
  }

  lemma EmptyPage()
    ensures Dense([[]]) && Concat([[]]) == [] == Concat([])
  {
    var held: seq<seq<Rec>> := [[]];
    assert held[..0] == [];
  }

  lemma SameLengths(imgs: seq<bytes>, ids: seq<nat>, held: seq<seq<Rec>>)
    requires Linked(imgs, ids, held)
    ensures |ids| == |held|
  {
  }

  lemma BuffersPush(ps: seq<Page>, p: Page)
    ensures Buffers(ps + [p]) == Buffers(ps) + {p.data}
  {
    var qs := ps + [p];
    forall i | 0 <= i < |ps| ensures ps[i].data in Buffers(qs) { assert qs[i] == ps[i]; }
    assert qs[|ps|] == p;
  }

  lemma HeldProper(img: bytes, id: u32, rs: seq<Rec>, next: u32)
    requires Holds(img, id, rs, next)
    ensures forall i :: 0 <= i < |rs| ==> Proper(rs[i])
  {
  }

  lemma NoRecords()
    ensures RecsSize([]) == 0
  {
  }

  lemma {:induction false} NextIs(imgs: seq<bytes>, ids: seq<nat>, held: seq<seq<Rec>>, c: nat)
    requires Linked(imgs, ids, held) && c < |ids|
    ensures ids[c] < |imgs| && |imgs[ids[c]]| == PAGE_SIZE && HeaderNext(imgs[ids[c]]) == NextOf(ids, c)
    ensures c + 1 < |ids| ==> ids[c + 1] < |imgs| < NO_PAGE
  {
    hide HeaderNext;
    assert Holds(imgs[ids[c]], ids[c], held[c], NextOf(ids, c));
    HoldsHeader(imgs[ids[c]], ids[c], held[c], NextOf(ids, c));
  }

  lemma {:induction false} LastHolds(imgs: seq<bytes>, ids: seq<nat>, held: seq<seq<Rec>>)
    requires Linked(imgs, ids, held) && ids != []
    ensures |held| == |ids| && ids[|ids| - 1] < |imgs|
    ensures Holds(imgs[ids[|ids| - 1]], ids[|ids| - 1], held[|ids| - 1], NO_PAGE)
    ensures forall i :: 0 <= i < |ids| ==> ids[i] < |imgs|
  {
    hide Holds;
    var i := |ids| - 1;
    assert Holds(imgs[ids[i]], ids[i], held[i], NextOf(ids, i));
  }

  lemma {:induction false} GrowLast(held: seq<seq<Rec>>, r: Rec)
    requires Dense(held) && held != []
    ensures var n := |held| - 1;
            var held' := held[..n] + [held[n] + [r]];
            Dense(held') && Concat(held') == Concat(held) + [r]
  {
    var n := |held| - 1;
    var held' := held[..n] + [held[n] + [r]];
    assert held'[..n] == held[..n];
    assert (held[n] + [r])[..|held[n]|] == held[n];
    forall i | 0 <= i < |held'| - 1 ensures RecsSize(held'[i]) + RecsSize(held'[i + 1]) > CAPACITY {
      assert RecsSize(held[i]) + RecsSize(held[i + 1]) > CAPACITY;
    }
  }

  lemma {:induction false} AddLast(held: seq<seq<Rec>>, r: Rec)
    requires Dense(held) && held != [] && RecsSize(held[|held| - 1]) + RecSize(r) > CAPACITY
    ensures Dense(held + [[r]]) && Concat(held + [[r]]) == Concat(held) + [r]
    ensures [] + [r] == [r]
  {
    var held' := held + [[r]];
    assert held'[..|held|] == held;
    assert [r][..0] == [];
    forall i | 0 <= i < |held'| - 1 ensures RecsSize(held'[i]) + RecsSize(held'[i + 1]) > CAPACITY {
      if i < |held| - 1 { assert RecsSize(held[i]) + RecsSize(held[i + 1]) > CAPACITY; }
    }
  }

  /** A proper prefix of the records takes fewer bytes than all of them. */
  lemma {:induction false} AllRead(rs: seq<Rec>, n: nat)
    requires n <= |rs| && RecsSize(rs[..n]) >= RecsSize(rs)
    ensures n == |rs|
  {
    PrefixSize(rs, n);
  }

  lemma {:induction false} PrefixSize(rs: seq<Rec>, n: nat)
    requires n <= |rs|
    ensures if n == |rs| then RecsSize(rs[..n]) == RecsSize(rs) else RecsSize(rs[..n]) < RecsSize(rs)
  {
    if n < |rs| {
      PrefixSize(rs[..|rs| - 1], n);
      assert rs[..|rs| - 1][..n] == rs[..n];
    } else {
      assert rs[..n] == rs;
    }
  }

  lemma {:induction false} ConcatPush(held: seq<seq<Rec>>, c: nat)
    requires c < |held|
    ensures Concat(held[..c + 1]) == Concat(held[..c]) + held[c]
  {
    assert held[..c + 1][..c] == held[..c];
  }

  // ------------------------------------------------------------------ space

  lemma {:induction false} RecsSizeAppend(a: seq<Rec>, b: seq<Rec>)
    ensures RecsSize(a + b) == RecsSize(a) + RecsSize(b)
    decreases |b|
  {
    if b == [] {
      assert a + b == a;
    } else {
      RecsSizeAppend(a, b[..|b| - 1]);
      assert (a + b)[..|a + b| - 1] == a + b[..|b| - 1];
    }
  }

  /** A chain of `n` pages holding `t` record bytes satisfies 4081 * floor(n / 2) <= t. */
  lemma {:induction false} SpaceBound(held: seq<seq<Rec>>)
    requires Dense(held)
    ensures (CAPACITY + 1) * (|held| / 2) <= RecsSize(Concat(held))
  {
    hide RecsSize;
    if |held| >= 2 {
      var n := |held|;
      SpaceBound(held[..n - 2]);
      ConcatPush(held, n - 2);
      ConcatPush(held, n - 1);
      assert held[..n] == held;
      RecsSizeAppend(Concat(held[..n - 2]), held[n - 2]);
      RecsSizeAppend(Concat(held[..n - 1]), held[n - 1]);
      assert RecsSize(held[n - 2]) + RecsSize(held[n - 2 + 1]) > CAPACITY;
    }
  }
}
