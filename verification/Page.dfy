/** Fixed-size pages and the records written into them. */
module Page {
  import opened Common
  import opened Bytes

  const PAGE_SIZE: nat := 4096
  const HEADER_SIZE: nat := 16
  const RECORD_HEADER: nat := 5  // flag, key length, value length
  const NO_PAGE: u32 := 0xFFFF_FFFF
  const LIVE: byte := 0
  const TOMBSTONE: byte := 1

  datatype Rec = Rec(flag: byte, key: bytes, value: bytes)

  // --------------------------------------------------------- page images

  /** Lengths that fit the record header, and one of the two flags. */
  predicate Proper(r: Rec)
  {
    |r.key| < 0x1_0000 && |r.value| < 0x1_0000 && (r.flag == LIVE || r.flag == TOMBSTONE)
  }

  function RecSize(r: Rec): nat
  {
    RECORD_HEADER + |r.key| + |r.value|
  }

  function RecBytes(r: Rec): (s: bytes)
    requires Proper(r)
    ensures |s| == RecSize(r)
  {
    [r.flag] + Le16(|r.key|) + Le16(|r.value|) + r.key + r.value
  }

  function RecsSize(rs: seq<Rec>): nat
  {
    if rs == [] then 0 else RecsSize(rs[..|rs| - 1]) + RecSize(rs[|rs| - 1])
  }

  function RecsBytes(rs: seq<Rec>): (s: bytes)
    requires forall i :: 0 <= i < |rs| ==> Proper(rs[i])
    ensures |s| == RecsSize(rs)
  {
    if rs == [] then [] else RecsBytes(rs[..|rs| - 1]) + RecBytes(rs[|rs| - 1])
  }

  /** The image is page `id` holding records `rs`, linked to page `next`. */
  ghost predicate Holds(img: bytes, id: u32, rs: seq<Rec>, next: u32)
  {
    && |img| == PAGE_SIZE
    && (forall i :: 0 <= i < |rs| ==> Proper(rs[i]))
    && HEADER_SIZE + RecsSize(rs) <= PAGE_SIZE
    && img[0..4] == Le32(id)
    && img[4..6] == Le16(HEADER_SIZE + RecsSize(rs))
    && img[6..10] == Le32(next)
    && img[HEADER_SIZE..HEADER_SIZE + RecsSize(rs)] == RecsBytes(rs)
  }

  function HeaderFree(img: bytes): nat
    requires |img| == PAGE_SIZE
  {
    Get16(img[4..6])
  }

  function HeaderNext(img: bytes): u32
    requires |img| == PAGE_SIZE
  {
    Get32(img[6..10])
  }

  function Overwrite(img: bytes, off: nat, s: bytes): (r: bytes)
    requires off + |s| <= |img|
    ensures |r| == |img|
  {
    img[..off] + s + img[off + |s|..]
  }

  lemma {:induction false} OverwriteElsewhere(img: bytes, off: nat, s: bytes, a: nat, b: nat)
    requires off + |s| <= |img| && a <= b <= |img| && (b <= off || off + |s| <= a)
    ensures Overwrite(img, off, s)[a..b] == img[a..b]
    ensures Overwrite(img, off, s)[off..off + |s|] == s
  {
  }

  lemma {:induction false} SubSlice(img: bytes, off: nat, s: bytes, a: nat, b: nat)
    requires off + |s| <= |img| && img[off..off + |s|] == s && a <= b <= |s|
    ensures img[off + a..off + b] == s[a..b]
  {
    forall i | 0 <= i < b - a ensures img[off + a..off + b][i] == s[a..b][i] {
      assert img[off..off + |s|][a + i] == img[off + a + i];
    }
  }

  lemma {:induction false} HoldsHeader(img: bytes, id: u32, rs: seq<Rec>, next: u32)
    requires Holds(img, id, rs, next)
    ensures HeaderFree(img) == HEADER_SIZE + RecsSize(rs) && HeaderNext(img) == next
  {
    hide Get32, Le32, Get16, Le16;
    RoundTrip16(HEADER_SIZE + RecsSize(rs));
    RoundTrip32(next);
  }

  /** Writing a record behind the others and advancing the free offset adds it to the page. */
  lemma {:induction false} HoldsOneMore(img: bytes, id: u32, rs: seq<Rec>, next: u32, r: Rec)
    requires Holds(img, id, rs, next) && Proper(r)
    requires HEADER_SIZE + RecsSize(rs) + RecSize(r) <= PAGE_SIZE
    ensures var off := HEADER_SIZE + RecsSize(rs);
            Holds(Overwrite(Overwrite(img, off, RecBytes(r)), 4, Le16(off + RecSize(r))), id, rs + [r], next)
  {
    hide Le32, Le16, RecBytes, Overwrite, Proper, RecsSize, RecsBytes;
    var off := HEADER_SIZE + RecsSize(rs);
    RecsPush(rs, r);
    OneMoreSlices(img, off, RecBytes(r), Le16(off + RecSize(r)));
  }

  lemma {:induction false} RecsPush(rs: seq<Rec>, r: Rec)
    ensures RecsSize(rs + [r]) == RecsSize(rs) + RecSize(r)
    ensures Proper(r) && (forall i :: 0 <= i < |rs| ==> Proper(rs[i])) ==>
            (forall i :: 0 <= i < |rs + [r]| ==> Proper((rs + [r])[i])) && RecsBytes(rs + [r]) == RecsBytes(rs) + RecBytes(r)
  {
    hide Proper;
    assert (rs + [r])[..|rs|] == rs;
  }

  /** What two writes, at `off` and at the free-offset field, leave where. */
  lemma {:induction false} OneMoreSlices(img: bytes, off: nat, s: bytes, free: bytes)
    requires |img| == PAGE_SIZE && HEADER_SIZE <= off && off + |s| <= PAGE_SIZE && |free| == 2
    ensures var img' := Overwrite(Overwrite(img, off, s), 4, free);
            && img'[0..4] == img[0..4] && img'[4..6] == free && img'[6..10] == img[6..10]
            && img'[HEADER_SIZE..off + |s|] == img[HEADER_SIZE..off] + s
  {
    hide Overwrite;
    var img1 := Overwrite(img, off, s);
    var img2 := Overwrite(img1, 4, free);
    OverwriteElsewhere(img, off, s, 0, 4);
    OverwriteElsewhere(img, off, s, 6, 10);
    OverwriteElsewhere(img, off, s, HEADER_SIZE, off);
    OverwriteElsewhere(img1, 4, free, 0, 4);
    OverwriteElsewhere(img1, 4, free, 6, 10);
    OverwriteElsewhere(img1, 4, free, HEADER_SIZE, off);
    OverwriteElsewhere(img1, 4, free, off, off + |s|);
    assert img2[HEADER_SIZE..off + |s|] == img2[HEADER_SIZE..off] + img2[off..off + |s|];
  }

  lemma {:induction false} HoldsRelinked(img: bytes, id: u32, rs: seq<Rec>, next: u32, next': u32)
    requires Holds(img, id, rs, next)
    ensures Holds(Overwrite(img, 6, Le32(next')), id, rs, next')
  {
    hide Le32, Le16;
    var img' := Overwrite(img, 6, Le32(next'));
    assert img'[0..4] == img[0..4] && img'[4..6] == img[4..6] && img'[6..10] == Le32(next');
    assert img'[HEADER_SIZE..HEADER_SIZE + RecsSize(rs)] == img[HEADER_SIZE..HEADER_SIZE + RecsSize(rs)];
  }

  // ---------------------------------------------------------------- pages

  method Blit(a: array<byte>, off: nat, s: bytes)
    requires off + |s| <= a.Length
    modifies a
    ensures a[..] == Overwrite(old(a[..]), off, s)
  {
    hide Overwrite;
    var i := 0;
    OverwriteNone(a[..], off);
    while i < |s|
      invariant i <= |s|
      invariant a[..] == Overwrite(old(a[..]), off, s[..i])
    {
      ghost var before := a[..];
      OverwriteNext(old(a[..]), off, s, i);
      a[off + i] := s[i];
      assert a[..] == before[off + i := s[i]];
      i := i + 1;
    }
    assert s[..i] == s;
  }

  lemma OverwriteNone(img: bytes, off: nat)
    requires off <= |img|
    ensures Overwrite(img, off, []) == img
  {
  }

  lemma {:induction false} OverwriteNext(img: bytes, off: nat, s: bytes, i: nat)
    requires off + |s| <= |img| && i < |s|
    ensures Overwrite(img, off, s[..i + 1]) == Overwrite(img, off, s[..i])[off + i := s[i]]
  {
    var x, y := Overwrite(img, off, s[..i + 1]), Overwrite(img, off, s[..i]);
    assert forall j :: 0 <= j < |img| && j != off + i ==> x[j] == y[j];
  }

  class Page {
    const id: u32
    const data: array<byte>

    ghost predicate Sized()
    {
      data.Length == PAGE_SIZE
    }

    constructor (id: u32)
      ensures this.id == id && fresh(data) && Sized()
      ensures Holds(data[..], id, [], NO_PAGE)
    {
      this.id := id;
      var d := new byte[PAGE_SIZE](_ => 0);
      data := d;
      new;
      Blit(data, 0, Le32(id));
      Blit(data, 4, Le16(HEADER_SIZE));
      Blit(data, 6, Le32(NO_PAGE));
      assert data[..][0..4] == Le32(id);
      assert data[..][4..6] == Le16(HEADER_SIZE);
      assert data[..][6..10] == Le32(NO_PAGE);
    }

    function FreeOffset(): nat
      requires Sized()
      reads data
    {
      HeaderFree(data[..])
    }

    function NextPageID(): u32
      requires Sized()
      reads data
    {
      HeaderNext(data[..])
    }

    function Remaining(): int
      requires Sized()
      reads data
    {
      PAGE_SIZE - FreeOffset()
    }

    method SetFreeOffset(off: nat)
      requires Sized() && off < 0x1_0000
      modifies data
      ensures data[..] == Overwrite(old(data[..]), 4, Le16(off))
    {
      Blit(data, 4, Le16(off));
    }

    method SetNextPageID(next: u32)
      requires Sized()
      modifies data
      ensures data[..] == Overwrite(old(data[..]), 6, Le32(next))
    {
      Blit(data, 6, Le32(next));
    }

    /** Append a record in the free space; refused, with nothing written, when there is no room. */
    method WriteRecord(key: bytes, value: bytes, flag: byte, ghost rs: seq<Rec>, ghost next: u32) returns (ok: bool)
      requires Sized() && Holds(data[..], id, rs, next) && (flag == LIVE || flag == TOMBSTONE)
      modifies data
      ensures ok <==> HEADER_SIZE + RecsSize(rs) + RecSize(Rec(flag, key, value)) <= PAGE_SIZE
      ensures ok ==> Holds(data[..], id, rs + [Rec(flag, key, value)], next)
      ensures !ok ==> data[..] == old(data[..])
    {
      hide Holds, Le16, Overwrite, RecsSize, RecBytes;
      HoldsHeader(data[..], id, rs, next);
      var needed := RECORD_HEADER + |key| + |value|;
      if Remaining() < needed {
        return false;
      }
      var offset := FreeOffset();
      HoldsOneMore(data[..], id, rs, next, Rec(flag, key, value));
      BlitRecord(offset, key, value, flag);
      SetFreeOffset(offset + needed);
      return true;
    }

    method BlitRecord(offset: nat, key: bytes, value: bytes, flag: byte)
      requires Sized() && offset + RECORD_HEADER + |key| + |value| <= PAGE_SIZE && (flag == LIVE || flag == TOMBSTONE)
      modifies data
      ensures data[..] == Overwrite(old(data[..]), offset, RecBytes(Rec(flag, key, value)))
    {
      hide Le16, Overwrite;
      Blit(data, offset, [flag]);
      OverwriteTwice(old(data[..]), offset, [flag], Le16(|key|));
      Blit(data, offset + 1, Le16(|key|));
      OverwriteTwice(old(data[..]), offset, [flag] + Le16(|key|), Le16(|value|));
      Blit(data, offset + 3, Le16(|value|));
      var start := offset + RECORD_HEADER;
      OverwriteTwice(old(data[..]), offset, [flag] + Le16(|key|) + Le16(|value|), key);
      Blit(data, start, key);
      OverwriteTwice(old(data[..]), offset, [flag] + Le16(|key|) + Le16(|value|) + key, value);
      Blit(data, start + |key|, value);
    }
  }

  lemma {:induction false} OverwriteTwice(img: bytes, off: nat, a: bytes, b: bytes)
    requires off + |a| + |b| <= |img|
    ensures Overwrite(Overwrite(img, off, a), off + |a|, b) == Overwrite(img, off, a + b)
  {
  }

  // -------------------------------------------------------------- reading

  /** The record at an offset, unless header or body would run past the page. */
  function ReadRecord(img: bytes, off: nat): Option<Rec>
  {
    if off + RECORD_HEADER > |img| then None
    else
      var keyLen, valLen := Get16(img[off + 1..off + 3]), Get16(img[off + 3..off + 5]);
      var start := off + RECORD_HEADER;
      if start + keyLen + valLen > |img| then None
      else Some(Rec(img[off], img[start..start + keyLen], img[start + keyLen..start + keyLen + valLen]))
  }

  lemma {:induction false} ReadBack(img: bytes, off: nat, r: Rec)
    requires Proper(r) && off + RecSize(r) <= |img| && img[off..off + RecSize(r)] == RecBytes(r)
    ensures ReadRecord(img, off) == Some(r)
  {
    hide Le16, Get16;
    RoundTrip16(|r.key|);
    RoundTrip16(|r.value|);
    var s := RecBytes(r);
    SubSlice(img, off, s, 0, 1);
    SubSlice(img, off, s, 1, 3);
    SubSlice(img, off, s, 3, 5);
    SubSlice(img, off, s, 5, 5 + |r.key|);
    SubSlice(img, off, s, 5 + |r.key|, |s|);
    assert s[1..3] == Le16(|r.key|) && s[3..5] == Le16(|r.value|);
    assert s[5..5 + |r.key|] == r.key && s[5 + |r.key|..|s|] == r.value;
    assert img[off] == img[off..off + 1][0];
  }

  /** Record `i` of a page is read back at the offset where it was written. */
  lemma {:induction false} ReadHeld(img: bytes, id: u32, rs: seq<Rec>, next: u32, i: nat)
    requires Holds(img, id, rs, next) && i < |rs|
    ensures ReadRecord(img, HEADER_SIZE + RecsSize(rs[..i])) == Some(rs[i])
    ensures RecsSize(rs[..i + 1]) == RecsSize(rs[..i]) + RecSize(rs[i]) <= RecsSize(rs)
  {
    hide Le16, Le32, RecBytes, ReadRecord;
    assert rs[..i + 1][..i] == rs[..i] && rs[..i + 1][i] == rs[i];
    PrefixBytes(rs, i + 1);
    PrefixBytes(rs[..i + 1], i);
    var a := HEADER_SIZE + RecsSize(rs[..i]);
    var all := RecsBytes(rs);
    SubSlice(img, HEADER_SIZE, all, RecsSize(rs[..i]), RecsSize(rs[..i + 1]));
    assert all[RecsSize(rs[..i])..RecsSize(rs[..i + 1])] == all[..RecsSize(rs[..i + 1])][RecsSize(rs[..i])..];
    ReadBack(img, a, rs[i]);
  }

  lemma {:induction false} PrefixBytes(rs: seq<Rec>, i: nat)
    requires i <= |rs| && forall j :: 0 <= j < |rs| ==> Proper(rs[j])
    ensures RecsSize(rs[..i]) <= RecsSize(rs)
    ensures RecsBytes(rs)[..RecsSize(rs[..i])] == RecsBytes(rs[..i])
  {
    hide RecBytes;
    if i < |rs| {
      var n := |rs| - 1;
      PrefixBytes(rs[..n], i);
      assert rs[..n][..i] == rs[..i];
    } else {
      assert rs[..i] == rs;
    }
  }
}
